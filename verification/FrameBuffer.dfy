// kernel/fb.c: the terminal over the words of the framebuffer and the 64 x 128 bytes of
// screen_buf. Every routine is proved against its cell-level meaning in Terminal.
module FrameBuffer {
  import opened Words
  import opened Terminal
  import opened Pixels

  // The clock of fb_update_cursor, in uint32_t arithmetic.
  predicate CursorOn(ticks: nat, lastActivity: nat) {
    (ticks - lastActivity) % WORD32 < 30 || ticks / 50 % 2 == 0
  }

  // The cursor is solid for 30 ticks after a key, also when the counter wraps in between;
  // after that it is on for the first 50 of every 100 ticks.
  lemma CursorBlink(ticks: nat, lastActivity: nat)
    requires ticks < 0x1_0000_0000 && lastActivity < 0x1_0000_0000
    ensures var since := if ticks < lastActivity then ticks + 0x1_0000_0000 - lastActivity else ticks - lastActivity;
            CursorOn(ticks, lastActivity) <==> since < 30 || ticks % 100 < 50
  {
  }

  lemma WriteFbStep(g: Grid, s: Screen, col: nat, row: nat, text: seq<Byte>, i: nat)
    requires Shape(g, s) && row < g.rows && i < |text| && col < g.cols
    ensures WriteFb(g, s, col, row, text[i..]) ==
            WriteFb(g, DrawChar(g, s, col, row, text[i]), col + 1, row, text[i + 1..])
  {
    assert text[i..][0] == text[i] && text[i..][1..] == text[i + 1..];
  }

  lemma WriteFbEnds(g: Grid, s: Screen, col: nat, row: nat, text: seq<Byte>)
    requires Shape(g, s) && row < g.rows && (text == [] || col >= g.cols)
    ensures WriteFb(g, s, col, row, text) == s
  {
  }

  lemma CopyThenZero(m: seq<nat>, c: seq<nat>, r: seq<nat>, count: nat, shift: nat)
    requires count + shift <= |m| == |c| == |r|
    requires forall k :: 0 <= k < count ==> c[k] == m[k + shift]
    requires forall k :: count <= k < |m| ==> c[k] == m[k]
    requires forall k :: 0 <= k < |m| ==> r[k] == if count <= k < count + shift then 0 else c[k]
    ensures Moved(m, r, shift, count + shift)
  {
  }

  class Display {
    const mode: Mode
    const font: Font
    const fb: array<nat>
    const screenBuf: array2<Byte>
    var curCol: nat
    var curRow: nat
    var themeFg: nat
    var themeBg: nat
    ghost var screen: Screen

    function G(): Grid { mode.TheGrid() }

    ghost predicate Buffers()
    {
      mode.Good() && fb.Length == mode.height * mode.stride &&
      screenBuf.Length0 == MAX_ROWS && screenBuf.Length1 == MAX_COLS
    }

    ghost predicate Shadowed()
      reads this, screenBuf
      requires Buffers() && Framed(G(), screen)
    {
      forall r, c :: 0 <= r < G().BufRows() && 0 <= c < G().cols ==> screenBuf[r, c] == screen.shadow[r][c]
    }

    // The pixels show the cells, screen_buf is the shadow, and the statics agree.
    ghost predicate Valid()
      reads this, fb, screenBuf
    {
      Buffers() && Framed(G(), screen) && Pictures(font, mode, Lines(mode, fb[..]), screen.cells) && Shadowed() &&
      curCol == screen.col && curRow == screen.row && themeFg == screen.fg && themeBg == screen.bg &&
      screen.fg < COLORS && screen.bg < COLORS
    }

    // --------------------------------------------------------------------- pixels

    method DrawPixel(x: nat, y: nat, r: Byte, g: Byte, b: Byte)
      requires Buffers() && x < mode.stride && y < mode.height
      modifies fb
      ensures Lines(mode, fb[..]) == Put(Lines(mode, old(fb[..])), y, x, Rgb(r, g, b))
    {
      StorePixel(mode, fb[..], y, x, Rgb(r, g, b));
      fb[Index(mode, y, x)] := Rgb(r, g, b);
    }

    // One turn of the inner loop of fb_fill_cell and of fb_draw_char.
    method DrawCellPixel(col: nat, row: nat, sy: nat, sx: nat, r: Byte, g: Byte, b: Byte,
                         ghost p: Raster, ghost cell: Cell)
      requires Buffers() && col < G().cols && row < G().rows && sy < mode.GlyphH() && sx < mode.GlyphW()
      requires PartPainted(font, mode, p, Lines(mode, fb[..]), row, col, cell, sy, sx)
      requires CellPixel(font, mode, cell, sy, sx) == Rgb(r, g, b)
      modifies fb
      ensures PartPainted(font, mode, p, Lines(mode, fb[..]), row, col, cell, sy, sx + 1)
    {
      ghost var q := Lines(mode, fb[..]);
      PixelInside(mode, row, col, sy, sx);
      DrawPixel(PixelX(mode, col, sx), PixelY(mode, row, sy), r, g, b);
      PartStep(font, mode, p, q, Lines(mode, fb[..]), row, col, cell, sy, sx);
    }

    method DrawColor(col: nat, row: nat, sy: nat, sx: nat, color: nat, ghost p: Raster, ghost cell: Cell)
      requires Buffers() && col < G().cols && row < G().rows && sy < mode.GlyphH() && sx < mode.GlyphW()
      requires PartPainted(font, mode, p, Lines(mode, fb[..]), row, col, cell, sy, sx)
      requires color < COLORS && CellPixel(font, mode, cell, sy, sx) == color
      modifies fb
      ensures PartPainted(font, mode, p, Lines(mode, fb[..]), row, col, cell, sy, sx + 1)
    {
      RgbOf(color);
      DrawCellPixel(col, row, sy, sx, Red(color), Green(color), Blue(color), p, cell);
    }

    method FillLine(col: nat, row: nat, sy: nat, r: Byte, g: Byte, b: Byte, ghost p: Raster)
      requires Buffers() && col < G().cols && row < G().rows && sy < mode.GlyphH()
      requires PartPainted(font, mode, p, Lines(mode, fb[..]), row, col, Fill(Rgb(r, g, b)), sy, 0)
      modifies fb
      ensures PartPainted(font, mode, p, Lines(mode, fb[..]), row, col, Fill(Rgb(r, g, b)), sy + 1, 0)
    {
      ghost var cell := Fill(Rgb(r, g, b));
      for sx := 0 to mode.GlyphW()
        invariant PartPainted(font, mode, p, Lines(mode, fb[..]), row, col, cell, sy, sx)
      {
        DrawCellPixel(col, row, sy, sx, r, g, b, p, cell);
      }
      PartRow(font, mode, p, Lines(mode, fb[..]), row, col, cell, sy);
    }

    method FillPixels(col: nat, row: nat, color: nat)
      requires Buffers() && col < G().cols && row < G().rows && color < COLORS
      modifies fb
      ensures CellPainted(font, mode, Lines(mode, old(fb[..])), Lines(mode, fb[..]), row, col, Fill(color))
      ensures forall y, x :: 0 <= y < mode.height && 0 <= x < mode.stride ==>
                Lines(mode, fb[..])[y][x] ==
                if 0 <= y - row * mode.GlyphH() < mode.GlyphH() && 0 <= x - col * mode.GlyphW() < mode.GlyphW()
                then color else Lines(mode, old(fb[..]))[y][x]
    {
      ghost var p := Lines(mode, fb[..]);
      var r, g, b := Red(color), Green(color), Blue(color);
      RgbOf(color);
      PartStart(font, mode, p, row, col, Fill(color));
      for sy := 0 to mode.GlyphH()
        invariant PartPainted(font, mode, p, Lines(mode, fb[..]), row, col, Fill(color), sy, 0)
      {
        FillLine(col, row, sy, r, g, b, p);
      }
      PartDone(font, mode, p, Lines(mode, fb[..]), row, col, Fill(color));
      PaintedFill(font, mode, p, Lines(mode, fb[..]), row, col, color);
    }

    // fb_draw_char, its pixel loops.
    method GlyphLine(col: nat, row: nat, c: Byte, fg: nat, bg: nat, dy: nat, ghost p: Raster)
      requires Buffers() && col < G().cols && row < G().rows && dy < mode.GlyphH() && fg < COLORS && bg < COLORS
      requires PartPainted(font, mode, p, Lines(mode, fb[..]), row, col, Glyph(c, fg, bg), dy, 0)
      modifies fb
      ensures PartPainted(font, mode, p, Lines(mode, fb[..]), row, col, Glyph(c, fg, bg), dy + 1, 0)
    {
      var bits := GlyphRow(font, mode, c, dy);
      for dx := 0 to mode.GlyphW()
        invariant PartPainted(font, mode, p, Lines(mode, fb[..]), row, col, Glyph(c, fg, bg), dy, dx)
      {
        DrawColor(col, row, dy, dx, GlyphColor(mode, bits, dx, fg, bg), p, Glyph(c, fg, bg));
      }
      PartRow(font, mode, p, Lines(mode, fb[..]), row, col, Glyph(c, fg, bg), dy);
    }

    method GlyphPixels(col: nat, row: nat, c: Byte, fg: nat, bg: nat)
      requires Buffers() && col < G().cols && row < G().rows && fg < COLORS && bg < COLORS
      modifies fb
      ensures CellPainted(font, mode, Lines(mode, old(fb[..])), Lines(mode, fb[..]), row, col, Glyph(c, fg, bg))
      ensures forall y, x :: 0 <= y < mode.height && 0 <= x < mode.stride ==>
                var now, dy, dx := Lines(mode, fb[..])[y][x], y - row * mode.GlyphH(), x - col * mode.GlyphW();
                if 0 <= dy < mode.GlyphH() && 0 <= dx < mode.GlyphW()
                then FontShows(font, mode, c, fg, bg, dy, dx, now)
                else now == Lines(mode, old(fb[..]))[y][x]
    {
      ghost var p := Lines(mode, fb[..]);
      PartStart(font, mode, p, row, col, Glyph(c, fg, bg));
      for dy := 0 to mode.GlyphH()
        invariant PartPainted(font, mode, p, Lines(mode, fb[..]), row, col, Glyph(c, fg, bg), dy, 0)
      {
        GlyphLine(col, row, c, fg, bg, dy, p);
      }
      PartDone(font, mode, p, Lines(mode, fb[..]), row, col, Glyph(c, fg, bg));
      PaintedGlyph(font, mode, p, Lines(mode, fb[..]), row, col, c, fg, bg);
    }

    // ------------------------------------------------------------ cells and cursor

    // fb_fill_cell on a grid cell.
    method PaintCell(col: nat, row: nat, color: nat)
      requires Valid() && col < G().cols && row < G().rows && color < COLORS
      modifies fb, this`screen
      ensures Valid() && screen == FillCell(old(screen), col, row, color)
    {
      ghost var p := Lines(mode, fb[..]);
      FillPixels(col, row, color);
      PaintedPictures(font, mode, p, Lines(mode, fb[..]), screen.cells, row, col, Fill(color));
      screen := FillCell(screen, col, row, color);
    }

    method FbDrawCursor()
      requires Valid() && Shape(G(), screen)
      modifies fb, this`screen
      ensures Valid() && screen == DrawCursor(G(), old(screen))
    {
      if curCol < G().cols && curRow < G().rows { PaintCell(curCol, curRow, themeFg); }
    }

    method FbEraseCursor()
      requires Valid() && Shape(G(), screen)
      modifies fb, this`screen
      ensures Valid() && screen == EraseCursor(G(), old(screen))
    {
      if curCol < G().cols && curRow < G().rows { PaintCell(curCol, curRow, themeBg); }
    }

    // fb_draw_char on a grid cell.
    method FbDrawChar(col: nat, row: nat, c: Byte, fg: nat, bg: nat)
      requires Valid() && Shape(G(), screen) && col < G().cols && row < G().rows && fg < COLORS && bg < COLORS
      modifies fb, screenBuf, this`screen
      ensures Valid() && screen == DrawColored(G(), old(screen), col, row, c, fg, bg)
    {
      ghost var p := Lines(mode, fb[..]);
      GlyphPixels(col, row, c, fg, bg);
      PaintedPictures(font, mode, p, Lines(mode, fb[..]), screen.cells, row, col, Glyph(c, fg, bg));
      if col < MAX_COLS && row < MAX_ROWS { screenBuf[row, col] := c; }
      screen := DrawColored(G(), screen, col, row, c, fg, bg);
    }

    // ------------------------------------------------------------------- fb_scroll

    // rep movsq: a forward copy of overlapping quadwords, two pixels each.
    method CopyRows(count: nat, shift: nat)
      requires 2 * count + shift <= fb.Length
      modifies fb
      ensures forall k :: 0 <= k < fb.Length ==> fb[k] == if k < 2 * count then old(fb[k + shift]) else old(fb[k])
    {
      for i := 0 to count
        invariant forall k :: 0 <= k < fb.Length ==> fb[k] == if k < 2 * i then old(fb[k + shift]) else old(fb[k])
      {
        fb[2 * i], fb[2 * i + 1] := fb[2 * i + shift], fb[2 * i + 1 + shift];
      }
    }

    // rep stosq of zero.
    method ZeroRow(start: nat, count: nat)
      requires start + 2 * count <= fb.Length
      modifies fb
      ensures forall k :: 0 <= k < fb.Length ==> fb[k] == if start <= k < start + 2 * count then 0 else old(fb[k])
    {
      for i := 0 to count
        invariant forall k :: 0 <= k < fb.Length ==> fb[k] == if start <= k < start + 2 * i then 0 else old(fb[k])
      {
        fb[start + 2 * i], fb[start + 2 * i + 1] := 0, 0;
      }
    }

    method MoveWords(count: nat, shift: nat, zeros: nat)
      requires 2 * count + shift <= fb.Length && 2 * zeros == shift
      modifies fb
      ensures Moved(old(fb[..]), fb[..], shift, 2 * count + shift)
    {
      ghost var m := fb[..];
      CopyRows(count, shift);
      ghost var c := fb[..];
      ZeroRow(2 * count, zeros);
      CopyThenZero(m, c, fb[..], 2 * count, shift);
    }

    method ScrollPixels()
      requires Buffers()
      modifies fb
      ensures Scrolled(mode, Lines(mode, old(fb[..])), Lines(mode, fb[..]))
    {
      ghost var m := fb[..];
      QuadCounts(mode);
      EvenRow(mode);
      MoveWords(CopiedQuads(mode), RowBytes(mode) / 4, RowQuads(mode));
      WordsMovedScrolls(mode, m, fb[..]);
    }

    method ScrollShadow()
      requires Buffers() && Framed(G(), screen) && Shadowed()
      modifies screenBuf
      ensures forall r, c :: 0 <= r < G().BufRows() && 0 <= c < G().cols ==>
                screenBuf[r, c] == ShiftUp(screen.shadow, G().cols, 0)[r][c]
    {
      var bufRows := G().BufRows();
      for r := 0 to bufRows - 1
        invariant ShadowMoved(r)
      {
        MoveShadowRow(r);
      }
      BlankLastRow();
    }

    // The first r rows of screen_buf hold the row below them.
    ghost predicate ShadowMoved(r: nat)
      reads this, screenBuf
      requires Buffers() && Framed(G(), screen)
    {
      forall i, j :: 0 <= i < G().BufRows() && 0 <= j < G().cols ==>
        screenBuf[i, j] == if i < r && i + 1 < G().BufRows() then screen.shadow[i + 1][j] else screen.shadow[i][j]
    }

    method MoveShadowRow(r: nat)
      requires Buffers() && Framed(G(), screen) && ShadowMoved(r) && r + 1 < G().BufRows()
      modifies screenBuf
      ensures ShadowMoved(r + 1)
    {
      var bufRows, bufCols := G().BufRows(), G().cols;
      for c := 0 to bufCols
        invariant forall i, j :: 0 <= i < bufRows && 0 <= j < bufCols ==>
                    screenBuf[i, j] == if i < r || (i == r && j < c) then screen.shadow[i + 1][j]
                                       else screen.shadow[i][j]
      {
        screenBuf[r, c] := screenBuf[r + 1, c];
      }
    }

    method BlankLastRow()
      requires Buffers() && Framed(G(), screen) && ShadowMoved(G().BufRows() - 1)
      modifies screenBuf
      ensures forall r, c :: 0 <= r < G().BufRows() && 0 <= c < G().cols ==>
                screenBuf[r, c] == ShiftUp(screen.shadow, G().cols, 0)[r][c]
    {
      var bufRows, bufCols := G().BufRows(), G().cols;
      for c := 0 to bufCols
        invariant forall i, j :: 0 <= i < bufRows && 0 <= j < bufCols ==>
                    screenBuf[i, j] == if i < bufRows - 1 then screen.shadow[i + 1][j]
                                       else if j < c then 0 else screen.shadow[i][j]
      {
        screenBuf[bufRows - 1, c] := 0;
      }
    }

    method FbScroll()
      requires Valid()
      modifies fb, screenBuf, this`curRow, this`screen
      ensures Valid() && screen == Scroll(G(), old(screen))
    {
      ghost var p := Lines(mode, fb[..]);
      ScrollPixels();
      ScrolledPictures(font, mode, p, Lines(mode, fb[..]), screen.cells);
      ScrollShadow();
      curRow := G().rows - 1;
      screen := Scroll(G(), screen);
    }

    // --------------------------------------------------------------------- printing

    method ScrollWhenBelow()
      requires Valid()
      modifies fb, screenBuf, this`curRow, this`screen
      ensures Valid() && screen == ScrollIfBelow(G(), old(screen))
    {
      if curRow >= G().rows { FbScroll(); }
    }

    method PrintChar(c: Byte)
      requires Valid() && Shape(G(), screen)
      modifies fb, screenBuf, this`curRow, this`curCol, this`screen
      ensures Valid() && Shape(G(), screen) && screen == PutChar(G(), old(screen), c)
    {
      ScrollWhenBelow();
      FbDrawChar(curCol, curRow, c, themeFg, themeBg);
      curCol := curCol + 1;
      if curCol >= G().cols {
        curCol := 0;
        curRow := curRow + 1;
      }
      screen := screen.(col := curCol, row := curRow);
    }

    // fb_print: the text is a C string's characters before its NUL.
    method FbPrint(text: seq<Byte>)
      requires Valid() && Shape(G(), screen)
      modifies fb, screenBuf, this`curRow, this`curCol, this`screen
      ensures Valid() && screen == Print(G(), old(screen), text)
    {
      FbEraseCursor();
      ghost var e := screen;
      assert text[0..] == text;
      for i := 0 to |text|
        invariant Valid() && Shape(G(), screen) && PutChars(G(), screen, text[i..]) == PutChars(G(), e, text)
      {
        assert text[i..][1..] == text[i + 1..];
        PrintChar(text[i]);
      }
      FbDrawCursor();
    }

    // write_fb in the theme's colours: nothing outside the grid, else to the row's end.
    method WriteText(row: int, col: int, text: seq<Byte>)
      requires Valid() && Shape(G(), screen)
      modifies fb, screenBuf, this`screen
      ensures Valid() && Shape(G(), screen)
      ensures screen == if 0 <= row < G().rows && 0 <= col < G().cols then WriteFb(G(), old(screen), col, row, text)
                        else old(screen)
    {
      if row < 0 || row >= G().rows || col < 0 || col >= G().cols { return; }
      WriteRow(row, col, text);
    }

    // Its loop.
    method WriteRow(row: nat, col: nat, text: seq<Byte>)
      requires Valid() && Shape(G(), screen) && row < G().rows
      modifies fb, screenBuf, this`screen
      ensures Valid() && Shape(G(), screen) && screen == WriteFb(G(), old(screen), col, row, text)
    {
      ghost var goal := WriteFb(G(), screen, col, row, text);
      assert text[0..] == text;
      var i: nat, at: nat, cols := 0, col, G().cols;
      while i < |text| && at < cols
        invariant Valid() && Shape(G(), screen) && i <= |text|
        invariant WriteFb(G(), screen, at, row, text[i..]) == goal
      {
        WriteNext(row, at, text, i);
        i, at := i + 1, at + 1;
      }
      WriteFbEnds(G(), screen, at, row, text[i..]);
    }

    // One turn of the loop.
    method WriteNext(row: nat, col: nat, text: seq<Byte>, i: nat)
      requires Valid() && Shape(G(), screen) && row < G().rows && col < G().cols && i < |text|
      modifies fb, screenBuf, this`screen
      ensures Valid() && Shape(G(), screen)
      ensures WriteFb(G(), screen, col + 1, row, text[i + 1..]) == WriteFb(G(), old(screen), col, row, text[i..])
    {
      WriteFbStep(G(), screen, col, row, text, i);
      FbDrawChar(col, row, text[i], themeFg, themeBg);
    }

    method FbPrintln(text: seq<Byte>)
      requires Valid() && Shape(G(), screen)
      modifies fb, screenBuf, this`curRow, this`curCol, this`screen
      ensures Valid() && screen == Println(G(), old(screen), text)
    {
      FbEraseCursor();
      ScrollWhenBelow();
      WriteText(curRow, curCol, text);
      curCol, curRow := 0, curRow + 1;
      screen := screen.(col := 0, row := curRow);
      ScrollWhenBelow();
      FbDrawCursor();
    }

    method FbBackspace()
      requires Valid() && Shape(G(), screen)
      modifies fb, screenBuf, this`curCol, this`screen
      ensures Valid() && screen == Backspace(G(), old(screen))
    {
      if curCol == 0 { return; }
      FbEraseCursor();
      curCol := curCol - 1;
      screen := screen.(col := curCol);
      PaintCell(curCol, curRow, themeBg);
      BlankShadow();
      FbDrawCursor();
    }

    method BlankShadow()
      requires Valid() && Shape(G(), screen)
      modifies screenBuf, this`screen
      ensures Valid() && screen == SetShadow(G(), old(screen), old(screen).col, old(screen).row, 0)
    {
      if curCol < MAX_COLS && curRow < MAX_ROWS { screenBuf[curRow, curCol] := 0; }
      screen := SetShadow(G(), screen, curCol, curRow, 0);
    }

    // The Enter key's fb_erase_cursor, fb_set_row(fb_get_row() + 1), fb_set_col(0).
    method EnterLine()
      requires Valid() && Shape(G(), screen)
      modifies fb, screenBuf, this`curRow, this`curCol, this`screen
      ensures Valid() && screen == Enter(G(), old(screen))
    {
      FbEraseCursor();
      curRow := curRow + 1;
      screen := screen.(row := curRow);
      ScrollWhenBelow();
      curCol := 0;
      screen := screen.(col := 0);
    }

    // ------------------------------------------------------------ clear and redraw

    method ClearLine(y: nat, color: nat, ghost p: Raster)
      requires Buffers() && y < mode.height && ClearedTo(mode, p, Lines(mode, fb[..]), color, y, 0)
      modifies fb
      ensures ClearedTo(mode, p, Lines(mode, fb[..]), color, y + 1, 0)
    {
      for x := 0 to mode.width
        invariant ClearedTo(mode, p, Lines(mode, fb[..]), color, y, x)
      {
        StorePixel(mode, fb[..], y, x, color);
        fb[Index(mode, y, x)] := color;
      }
    }

    method FbClear(color: nat)
      requires Buffers()
      modifies fb
      ensures Pictures(font, mode, Lines(mode, fb[..]), Uniform(G().rows, G().cols, Fill(color)))
    {
      ghost var p := Lines(mode, fb[..]);
      for y := 0 to mode.height
        invariant ClearedTo(mode, p, Lines(mode, fb[..]), color, y, 0)
      {
        ClearLine(y, color, p);
      }
      ClearedPictures(font, mode, p, Lines(mode, fb[..]), color);
    }

    method ClearShadow()
      requires Buffers() && G().Good()
      modifies screenBuf
      ensures forall r, c :: 0 <= r < G().BufRows() && 0 <= c < G().cols ==> screenBuf[r, c] == 0
    {
      for r := 0 to G().BufRows()
        invariant forall i, j :: 0 <= i < r && 0 <= j < G().cols ==> screenBuf[i, j] == 0
      {
        for c := 0 to G().cols
          invariant forall i, j :: 0 <= i < r && 0 <= j < G().cols ==> screenBuf[i, j] == 0
          invariant forall j :: 0 <= j < c ==> screenBuf[r, j] == 0
        {
          screenBuf[r, c] := 0;
        }
      }
    }

    method FbClearScreen()
      requires Valid() && Shape(G(), screen)
      modifies fb, screenBuf, this`curRow, this`curCol, this`screen
      ensures Valid() && screen == Clear(G(), old(screen))
    {
      FbClear(themeBg);
      ClearShadow();
      curRow, curCol := 0, 0;
      screen := Clear(G(), screen);
    }

    // What redraw_screen has painted when its loops reach cell (r, c).
    ghost predicate Repainted(s: Screen, r: nat, c: nat)
      reads this
      requires Buffers() && Framed(G(), screen) && Framed(G(), s)
    {
      screen == s.(cells := screen.cells) &&
      forall i, j :: 0 <= i < G().rows && 0 <= j < G().cols ==>
        screen.cells[i][j] == if Before(i, j, r, c) then Painted(G(), s, i, j) else Fill(s.bg)
    }

    method RedrawCell(r: nat, c: nat, ghost s: Screen)
      requires Valid() && Shape(G(), screen) && Framed(G(), s) && r < G().BufRows() && c < G().cols
      requires Repainted(s, r, c)
      modifies fb, screenBuf, this`screen
      ensures Valid() && Shape(G(), screen) && Repainted(s, r, c + 1)
    {
      if screenBuf[r, c] != 0 {
        FbDrawChar(c, r, screenBuf[r, c], themeFg, themeBg);
        assert Put(s.shadow, r, c, s.shadow[r][c]) == s.shadow by {
          SameGrid(Put(s.shadow, r, c, s.shadow[r][c]), s.shadow, G().BufRows(), G().cols);
        }
      }
    }

    method RedrawRow(r: nat, ghost s: Screen)
      requires Valid() && Shape(G(), screen) && Framed(G(), s) && r < G().BufRows() && Repainted(s, r, 0)
      modifies fb, screenBuf, this`screen
      ensures Valid() && Shape(G(), screen) && Repainted(s, r + 1, 0)
    {
      for c := 0 to G().cols
        invariant Valid() && Shape(G(), screen) && Repainted(s, r, c)
      {
        RedrawCell(r, c, s);
      }
    }

    method RedrawScreen()
      requires Valid() && Shape(G(), screen)
      modifies fb, screenBuf, this`screen
      ensures Valid() && screen == Redraw(G(), old(screen))
    {
      ghost var s := screen;
      FbClear(themeBg);
      screen := s.(cells := Uniform(G().rows, G().cols, Fill(s.bg)));
      for r := 0 to G().BufRows()
        invariant Valid() && Shape(G(), screen) && Repainted(s, r, 0)
      {
        RedrawRow(r, s);
      }
      SameGrid(screen.cells, PaintedCells(G(), s), G().rows, G().cols);
      FbDrawCursor();
    }

    method FbUpdateTheme(fg: nat, bg: nat)
      requires Valid() && Shape(G(), screen) && fg < COLORS && bg < COLORS
      modifies fb, screenBuf, this`themeFg, this`themeBg, this`screen
      ensures Valid() && screen == UpdateTheme(G(), old(screen), fg, bg) && themeFg == fg && themeBg == bg
    {
      themeFg, themeBg := fg, bg;
      screen := screen.(fg := fg, bg := bg);
      RedrawScreen();
    }

    // fb_update_cursor: solid for 30 ticks after a key, then half a second on and off.
    method FbUpdateCursor(ticks: nat, lastActivity: nat)
      requires Valid() && Shape(G(), screen) && ticks < WORD32 && lastActivity < WORD32
      modifies fb, this`screen
      ensures Valid()
      ensures screen == Step(G(), old(screen), OpCursor(CursorOn(ticks, lastActivity)))
    {
      if CursorOn(ticks, lastActivity) { FbDrawCursor(); } else { FbEraseCursor(); }
    }

    // One terminal routine.
    method Perform(op: Op)
      requires Valid() && Shape(G(), screen) && Legal(op)
      modifies this, fb, screenBuf
      ensures Valid() && screen == Step(G(), old(screen), op)
    {
      match op
      case OpPrint(text) => FbPrint(text);
      case OpPrintln(text) => FbPrintln(text);
      case OpBackspace => FbBackspace();
      case OpClear => FbClearScreen();
      case OpTheme(fg, bg) => FbUpdateTheme(fg, bg);
      case OpEnter => EnterLine();
      case OpCursor(on) => if on { FbDrawCursor(); } else { FbEraseCursor(); }
    }

    method PerformAll(ops: seq<Op>)
      requires Valid() && Shape(G(), screen) && forall i :: 0 <= i < |ops| ==> Legal(ops[i])
      modifies this, fb, screenBuf
      ensures Valid() && Shape(G(), screen) && screen == Run(G(), old(screen), ops)
    {
      ghost var s := screen;
      assert ops[0..] == ops;
      for i := 0 to |ops|
        invariant Valid() && Shape(G(), screen) && Run(G(), screen, ops[i..]) == Run(G(), s, ops)
      {
        assert ops[i..][0] == ops[i] && ops[i..][1..] == ops[i + 1..];
        Perform(ops[i]);
      }
    }

    // fb_init and the first fb_clear(FB_BLACK), on zeroed statics.
    constructor (mode: Mode, font: Font, fb: array<nat>)
      requires mode.Good() && fb.Length == mode.height * mode.stride
      modifies fb
      ensures this.mode == mode && this.fb == fb && fresh(screenBuf)
      ensures Valid() && screen == Start(G())
    {
      this.mode := mode;
      this.font := font;
      this.fb := fb;
      screenBuf := new Byte[MAX_ROWS, MAX_COLS]((i, j) => 0);
      curCol, curRow, themeFg, themeBg := 0, 0, WHITE, BLACK;
      GridInside(mode);
      screen := Start(mode.TheGrid());
      new;
      FbClear(BLACK);
    }
  }
}
