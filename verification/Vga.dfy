/** The VGA text console (src/vga.c): a window of 256 rows over the document, a view
    into it, and the screen memory, all updated in place. */
module Vga {
  import opened Basics
  import opened Terminal
  import KString

  /** What the history window holds at position p. */
  function Kept(d: Doc, p: nat): u16
    requires WellFormed(d) && Oldest(d) + p / 78 < |d.rows|
  {
    d.rows[Oldest(d) + p / 78][p % 78]
  }

  /** Positions that hold cell x of row `row` of the window. */
  lemma KeptAfterSet(d: Doc, row: nat, x: nat, cell: u16, p: nat)
    requires WellFormed(d) && Oldest(d) + row < |d.rows| && x < 78 && Oldest(d) + p / 78 < |d.rows|
    ensures WellFormed(SetCell(d, Oldest(d) + row, x, cell))
    ensures Kept(SetCell(d, Oldest(d) + row, x, cell), p) == if p == row * 78 + x then cell else Kept(d, p)
  {
    SetCellWellFormed(d, Oldest(d) + row, x, cell);
  }

  /** The window before and after the next row is started, blank row and shift included. */
  lemma KeptAfterNext(d: Doc, color: u8, p: nat)
    requires WellFormed(d)
    requires var next := NextRow(d, color); Oldest(next) + p / 78 < |next.rows|
    ensures var next := NextRow(d, color);
            && WellFormed(next)
            && Kept(next, p) == if p / 78 == next.row - Oldest(next) then Entry(' ', color)
                                else if Oldest(next) > Oldest(d) then Kept(d, p + 78)
                                else Kept(d, p)
  {
    NextRowWellFormed(d, color);
    var next := NextRow(d, color);
    assert (p + 78) / 78 == p / 78 + 1 && (p + 78) % 78 == p % 78;
  }

  /** The shifted or unshifted window with one row blanked is that of the next row. */
  lemma WindowOfNext(d: Doc, next: Doc, color: u8, before: seq<u16>, after: seq<u16>)
    requires WellFormed(d) && next == NextRow(d, color) && |before| == |after| == 19968
    requires forall p :: 0 <= p < (|d.rows| - Oldest(d)) * 78 ==> before[p] == Kept(d, p)
    requires forall p :: 0 <= p < 19968 && p / 78 == next.row - Oldest(next) ==> after[p] == Entry(' ', color)
    requires forall p :: 0 <= p < 19968 && p / 78 != next.row - Oldest(next) && Oldest(next) == Oldest(d) ==>
               after[p] == before[p]
    requires forall p :: 0 <= p < 19890 && p / 78 != next.row - Oldest(next) && Oldest(next) > Oldest(d) ==>
               after[p] == before[p + 78]
    ensures WellFormed(next)
    ensures forall p :: 0 <= p < (|next.rows| - Oldest(next)) * 78 ==> after[p] == Kept(next, p)
  {
    NextRowWellFormed(d, color);
    forall p | 0 <= p < (|next.rows| - Oldest(next)) * 78 ensures after[p] == Kept(next, p) {
      KeptAfterNext(d, color, p);
      if p / 78 != next.row - Oldest(next) {
        if Oldest(next) > Oldest(d) {
          assert p < 19890;
          assert before[p + 78] == Kept(d, p + 78);
        } else {
          assert before[p] == Kept(d, p);
        }
      }
    }
  }

  class Console {
    var terminalRow: nat
    var terminalColumn: nat
    var viewportRow: nat
    var totalRows: nat
    var terminalColor: u8
    const terminalBuffer: array<u16>
    const historyBuffer: array<u16>
    /** The display controller's selected register, and its two cursor registers. */
    var selected: u8
    var cursorHigh: u8
    var cursorLow: u8
    /** The document, and the colour in force when the screen was last rendered. */
    ghost var doc: Doc
    ghost var shownColor: u8

    /** The window, the cursor and the view are those of the document. */
    ghost predicate Windowed()
      reads `terminalRow, `terminalColumn, `viewportRow, `totalRows, `doc, historyBuffer
    {
      RowsWindowed() && terminalColumn == doc.col
    }

    ghost predicate RowsWindowed()
      reads `terminalRow, `viewportRow, `totalRows, `doc, historyBuffer
    {
      && HistoryWindowed()
      && terminalRow == doc.row - Oldest(doc)
      && viewportRow == doc.top - Oldest(doc)
    }

    ghost predicate HistoryWindowed()
      reads `totalRows, `doc, historyBuffer
    {
      && WellFormed(doc)
      && totalRows == |doc.rows| - Oldest(doc)
      && historyBuffer.Length == 19968
      && forall p :: 0 <= p < totalRows * 78 ==> historyBuffer[p] == Kept(doc, p)
    }

    /** The screen shows the document. */
    ghost predicate Shown()
      requires WellFormed(doc)
      reads `doc, `shownColor, terminalBuffer
    {
      && terminalBuffer.Length == 2000
      && forall p :: 0 <= p < 2000 ==> terminalBuffer[p] == Pixel(doc, shownColor, p)
    }

    ghost predicate Valid()
      reads this, historyBuffer, terminalBuffer
    {
      && terminalBuffer != historyBuffer
      && Windowed()
      && Shown()
      && cursorLow + 256 * cursorHigh == CursorPosition(doc)
    }

    method BottomViewportRow() returns (row: nat)
      requires Windowed()
      ensures row == Bottom(doc) - Oldest(doc)
    {
      if totalRows > 23 {
        return totalRows - 23;
      }
      return 0;
    }

    method ClearHistoryRow(row: nat)
      requires historyBuffer.Length == 19968 && row < 256
      modifies historyBuffer
      ensures forall p :: 0 <= p < 19968 ==>
                historyBuffer[p] == if p / 78 == row then Entry(' ', terminalColor) else old(historyBuffer[p])
    {
      var blank := Entry(' ', terminalColor);
      for i := 0 to 78
        invariant forall p :: 0 <= p < 19968 ==>
                    historyBuffer[p] == if row * 78 <= p < row * 78 + i then blank else old(historyBuffer[p])
      {
        historyBuffer[row * 78 + i] := blank;
      }
    }

    method ShiftHistoryUp()
      requires historyBuffer.Length == 19968
      modifies historyBuffer, `terminalRow, `viewportRow, `totalRows
      ensures forall p :: 0 <= p < 19890 ==> historyBuffer[p] == old(historyBuffer[p + 78])
      ensures terminalRow == (if old(terminalRow) > 0 then old(terminalRow) - 1 else 0)
      ensures viewportRow == (if old(viewportRow) > 0 then old(viewportRow) - 1 else 0)
      ensures totalRows == (if old(totalRows) > 0 then old(totalRows) - 1 else 0)
    {
      KString.MemMove(historyBuffer, 0, 78, 255 * 78);
      ClearHistoryRow(255);
      if terminalRow > 0 {
        terminalRow := terminalRow - 1;
      }
      if viewportRow > 0 {
        viewportRow := viewportRow - 1;
      }
      if totalRows > 0 {
        totalRows := totalRows - 1;
      }
    }

    method RenderViewport()
      requires Windowed() && terminalBuffer != historyBuffer && terminalBuffer.Length == 2000
      modifies terminalBuffer, `shownColor
      ensures Shown() && shownColor == terminalColor
    {
      shownColor := terminalColor;
      BlankScreen();
      for y := 0 to 23
        invariant Windowed() && shownColor == terminalColor
        invariant forall p :: 0 <= p < 2000 ==>
                    terminalBuffer[p] == if p / 80 <= y then Pixel(doc, shownColor, p) else Entry(' ', shownColor)
      {
        var srcRow := viewportRow + y;
        var dstRow := y + 1;
        if srcRow < totalRows {
          KString.MemCpy(terminalBuffer, dstRow * 80 + 1, historyBuffer, srcRow * 78, 78);
        }
      }
    }

    method BlankScreen()
      requires terminalBuffer.Length == 2000
      modifies terminalBuffer
      ensures forall p :: 0 <= p < 2000 ==> terminalBuffer[p] == Entry(' ', terminalColor)
    {
      var blank := Entry(' ', terminalColor);
      for y := 0 to 25
        invariant forall p :: 0 <= p < y * 80 ==> terminalBuffer[p] == blank
      {
        for x := 0 to 80
          invariant forall p :: 0 <= p < y * 80 + x ==> terminalBuffer[p] == blank
        {
          terminalBuffer[y * 80 + x] := blank;
        }
      }
    }

    method UpdateCursor()
      requires Windowed()
      modifies `selected, `cursorHigh, `cursorLow
      ensures cursorLow + 256 * cursorHigh == CursorPosition(doc)
    {
      var visibleRow := 22;
      if terminalRow >= viewportRow && terminalRow < viewportRow + 23 {
        visibleRow := terminalRow - viewportRow;
      }
      var pos := (visibleRow + 1) * 80 + terminalColumn + 1;
      OutB(0x3D4, 0x0F);
      OutB(0x3D5, pos % 256);
      OutB(0x3D4, 0x0E);
      OutB(0x3D5, pos / 256 % 256);
    }

    /** A port write as the display controller takes it: one port selects a register,
        the other writes the selected one. */
    method OutB(port: u16, value: u8)
      modifies `selected, `cursorHigh, `cursorLow
      ensures selected == if port == 0x3D4 then value else old(selected)
      ensures cursorHigh == if port == 0x3D5 && selected == 0x0E then value else old(cursorHigh)
      ensures cursorLow == if port == 0x3D5 && selected == 0x0F then value else old(cursorLow)
    {
      if port == 0x3D4 {
        selected := value;
      } else if port == 0x3D5 {
        if selected == 0x0E {
          cursorHigh := value;
        } else if selected == 0x0F {
          cursorLow := value;
        }
      }
    }

    method SyncViewport(followBottom: bool)
      requires Windowed() && terminalBuffer != historyBuffer && terminalBuffer.Length == 2000
      modifies `viewportRow, `doc, `shownColor, `selected, `cursorHigh, `cursorLow, terminalBuffer
      ensures Valid() && shownColor == terminalColor
      ensures doc == old(doc).(top := if followBottom then Bottom(old(doc)) else old(doc.top))
    {
      var bottom := BottomViewportRow();
      if followBottom {
        viewportRow := bottom;
        doc := doc.(top := Bottom(doc));
      } else {
        // The source would lower a view that lies below the bottom; there is none.
        assert viewportRow <= bottom;
      }
      RenderViewport();
      UpdateCursor();
    }

    method AdvanceLine(followBottom: bool)
      requires RowsWindowed() && terminalBuffer != historyBuffer && terminalBuffer.Length == 2000
      requires followBottom == (doc.top == Bottom(doc))
      modifies this, historyBuffer, terminalBuffer
      ensures Valid() && terminalColor == old(terminalColor) && shownColor == terminalColor
      ensures doc == NewLine(old(doc), terminalColor)
    {
      StartRow();
      SyncViewport(followBottom);
    }

    /** Everything of an advance but the view at the bottom. */
    method StartRow()
      requires RowsWindowed()
      modifies `terminalRow, `terminalColumn, `viewportRow, `totalRows, `doc, historyBuffer
      ensures Windowed()
      ensures doc == NextRow(old(doc), terminalColor)
    {
      hide Kept, BlankRow;
      ghost var d, window := doc, historyBuffer[..];
      ghost var next := NextRow(d, terminalColor);
      NextRowWellFormed(d, terminalColor);
      terminalColumn := 0;
      terminalRow := terminalRow + 1;
      if terminalRow >= 256 {
        ShiftHistoryUp();
      }
      if terminalRow + 1 > totalRows {
        totalRows := terminalRow + 1;
      }
      ClearHistoryRow(terminalRow);
      WindowOfNext(d, next, terminalColor, window, historyBuffer[..]);
      doc := next;
    }

    method PutCharacter(c: char)
      requires Valid()
      modifies this, historyBuffer, terminalBuffer
      ensures Valid() && terminalColor == old(terminalColor) && shownColor == terminalColor
      ensures doc == PutChar(old(doc), c, terminalColor)
    {
      var bottom := BottomViewportRow();
      var followBottom := viewportRow == bottom;
      if c == '\n' {
        AdvanceLine(followBottom);
      } else if c == BACKSPACE {
        EraseBackwards();
        SyncViewport(followBottom);
      } else {
        PutPrintable(c, followBottom);
      }
    }

    method PutPrintable(c: char, followBottom: bool)
      requires Valid() && followBottom == (doc.top == Bottom(doc))
      requires c != '\n' && c != BACKSPACE
      modifies this, historyBuffer, terminalBuffer
      ensures Valid() && terminalColor == old(terminalColor) && shownColor == terminalColor
      ensures doc == PutChar(old(doc), c, terminalColor)
    {
      PokeHistory(terminalRow, terminalColumn, Entry(c, terminalColor));
      terminalColumn := terminalColumn + 1;
      if terminalColumn == 78 {
        AdvanceLine(followBottom);
      } else {
        // Raising totalRows to the cursor's row changes nothing: the row is in use.
        doc := doc.(col := doc.col + 1);
        SyncViewport(followBottom);
      }
    }

    /** Steps back and blanks, across a row's start but not before the oldest row. */
    method EraseBackwards()
      requires Windowed()
      modifies `terminalRow, `terminalColumn, `doc, historyBuffer
      ensures Windowed() && doc == PutChar(old(doc), BACKSPACE, terminalColor)
    {
      if terminalColumn > 0 || terminalRow > 0 {
        if terminalColumn == 0 {
          terminalRow := terminalRow - 1;
          terminalColumn := 78;
        }
        terminalColumn := terminalColumn - 1;
        PokeHistory(terminalRow, terminalColumn, Entry(' ', terminalColor));
        doc := doc.(row := Oldest(doc) + terminalRow, col := terminalColumn);
      }
    }

    method Clear()
      requires historyBuffer.Length == 19968 && terminalBuffer.Length == 2000 && terminalBuffer != historyBuffer
      modifies this, historyBuffer, terminalBuffer
      ensures Valid() && terminalColor == old(terminalColor) && shownColor == terminalColor
      ensures doc == Cleared(terminalColor)
    {
      for row := 0 to 256
        invariant terminalColor == old(terminalColor)
        invariant forall p :: 0 <= p < row * 78 ==> historyBuffer[p] == Entry(' ', terminalColor)
      {
        ClearHistoryRow(row);
      }
      terminalRow, terminalColumn, viewportRow, totalRows := 0, 0, 0, 1;
      doc := Cleared(terminalColor);
      RenderViewport();
      UpdateCursor();
    }

    /** Binding a screen and initializing: light grey on black, an empty document. */
    constructor (buffer: array<u16>)
      requires buffer.Length == 2000
      modifies buffer
      ensures Valid() && terminalBuffer == buffer && fresh(historyBuffer)
      ensures doc == Cleared(terminalColor) && shownColor == terminalColor == 7
    {
      terminalBuffer := buffer;
      historyBuffer := new u16[19968];
      terminalRow, terminalColumn, viewportRow, totalRows := 0, 0, 0, 1;
      terminalColor := 7;
      new;
      Clear();
    }

    method SetColor(color: u8)
      requires Valid()
      modifies `terminalColor
      ensures Valid() && terminalColor == color
    {
      terminalColor := color;
    }

    method ScrollView(delta: int)
      requires Valid() && -0x8000_0000 <= delta && viewportRow + delta <= 0x7FFF_FFFF
      modifies `viewportRow, `doc, `shownColor, `selected, `cursorHigh, `cursorLow, terminalBuffer
      ensures Valid() && shownColor == terminalColor && doc == Scroll(old(doc), delta)
    {
      var next := viewportRow + delta;
      var bottom := BottomViewportRow();
      if next < 0 {
        next := 0;
      }
      if next > bottom {
        next := bottom;
      }
      viewportRow := next;
      doc := Scroll(doc, delta);
      RenderViewport();
      UpdateCursor();
    }

    method ScrollToBottom()
      requires Valid()
      modifies `viewportRow, `doc, `shownColor, `selected, `cursorHigh, `cursorLow, terminalBuffer
      ensures Valid() && shownColor == terminalColor && doc == old(doc).(top := Bottom(old(doc)))
    {
      viewportRow := BottomViewportRow();
      doc := doc.(top := Bottom(doc));
      RenderViewport();
      UpdateCursor();
    }

    /** Overwrites one visible cell; a cell below the document's end is not shown. */
    method PutEntry(c: char, color: u8, x: nat, y: nat)
      requires Valid()
      modifies `doc, `shownColor, historyBuffer, terminalBuffer
      ensures Valid() && doc == PutEntryAt(old(doc), x, y, Entry(c, color))
    {
      if viewportRow + y >= 256 || x >= 78 || y >= 23 {
        return;
      }
      PokeHistory(viewportRow + y, x, Entry(c, color));
      RenderViewport();
    }

    /** Writes a cell of the window; the document has it when the row is in use. */
    method PokeHistory(row: nat, x: nat, cell: u16)
      requires HistoryWindowed() && row < 256 && x < 78
      modifies `doc, historyBuffer
      ensures HistoryWindowed()
      ensures doc == if row < totalRows then SetCell(old(doc), Oldest(old(doc)) + row, x, cell) else old(doc)
    {
      historyBuffer[row * 78 + x] := cell;
      if row < totalRows {
        ghost var d := doc;
        SetCellWellFormed(d, Oldest(d) + row, x, cell);
        doc := SetCell(d, Oldest(d) + row, x, cell);
        forall p | 0 <= p < totalRows * 78 ensures historyBuffer[p] == Kept(doc, p) {
          KeptAfterSet(d, row, x, cell, p);
        }
      }
    }

    method Write(data: seq<char>)
      requires Valid()
      modifies this, historyBuffer, terminalBuffer
      ensures Valid() && terminalColor == old(terminalColor)
      ensures doc == WriteText(old(doc), data, terminalColor)
    {
      for i := 0 to |data|
        invariant Valid() && terminalColor == old(terminalColor)
        invariant doc == WriteText(old(doc), data[..i], terminalColor)
      {
        assert data[..i + 1][..i] == data[..i];
        PutCharacter(data[i]);
      }
      assert data[..|data|] == data;
    }
  }
}
