// What each routine of kernel/fb.c does, cell by cell: the colours, the picture with its
// cursor, screen_buf and the cursor's place after one call, said outright.
module Effects {
  import opened Words
  import opened Terminal

  // --------------------------------------------------------------------- the theme

  // A new theme recolours every cell from screen_buf, the cursor in the foreground.
  lemma ThemeRepaints(g: Grid, s: Screen, fg: nat, bg: nat)
    requires Shape(g, s)
    ensures var t := Step(g, s, OpTheme(fg, bg));
            t.fg == fg && t.bg == bg && t.shadow == s.shadow && t.col == s.col && t.row == s.row &&
            forall r, c :: 0 <= r < g.rows && 0 <= c < g.cols ==>
              t.cells[r][c] == if r == s.row && c == s.col then Fill(fg)
                               else if r < 64 && s.shadow[r][c] != 0 then Glyph(s.shadow[r][c], fg, bg)
                               else Fill(bg)
  {
  }

  // No other routine touches the colours.
  lemma OthersKeepColors(g: Grid, s: Screen, op: Op)
    requires Shape(g, s) && !op.OpTheme?
    ensures Step(g, s, op).fg == s.fg && Step(g, s, op).bg == s.bg
  {
    if op.OpPrint? { PutCharsColors(g, EraseCursor(g, s), op.text); }
  }

  lemma {:induction false} RunsKeepColors(g: Grid, s: Screen, ops: seq<Op>)
    requires Shape(g, s) && forall i :: 0 <= i < |ops| ==> !ops[i].OpTheme?
    ensures Run(g, s, ops).fg == s.fg && Run(g, s, ops).bg == s.bg
    decreases |ops|
  {
    if ops != [] {
      OthersKeepColors(g, s, ops[0]);
      RunsKeepColors(g, Step(g, s, ops[0]), ops[1..]);
    }
  }

  // After a run the colours are those of its last theme.
  lemma {:induction false} LastThemeColors(g: Grid, s: Screen, ops: seq<Op>, i: nat)
    requires Shape(g, s) && i < |ops| && ops[i].OpTheme?
    requires forall j :: i < j < |ops| ==> !ops[j].OpTheme?
    ensures Run(g, s, ops).fg == ops[i].fg && Run(g, s, ops).bg == ops[i].bg
    decreases |ops|
  {
    var t := Step(g, s, ops[0]);
    if i == 0 {
      ThemeRepaints(g, s, ops[0].fg, ops[0].bg);
      RunsKeepColors(g, t, ops[1..]);
    } else {
      LastThemeColors(g, t, ops[1..], i - 1);
    }
  }

  // ------------------------------------------------------------ cursor and clearing

  lemma StartScreen(g: Grid)
    requires g.Good()
    ensures var s := Start(g);
            s.col == 0 && s.row == 0 && s.fg == 0xFF_FFFF && s.bg == 0 &&
            (forall r, c :: 0 <= r < g.rows && 0 <= c < g.cols ==> s.cells[r][c] == Fill(0)) &&
            forall r, c :: 0 <= r < g.rows && r < 64 && 0 <= c < g.cols ==> s.shadow[r][c] == 0
  {
  }

  lemma CursorBlinks(g: Grid, s: Screen, on: bool)
    requires Shape(g, s)
    ensures var t := Step(g, s, OpCursor(on));
            t == s.(cells := t.cells) &&
            forall r, c :: 0 <= r < g.rows && 0 <= c < g.cols ==>
              t.cells[r][c] == if r == s.row && c == s.col then Fill(if on then s.fg else s.bg) else s.cells[r][c]
  {
  }

  lemma ClearBlanks(g: Grid, s: Screen)
    requires Shape(g, s)
    ensures var t := Step(g, s, OpClear);
            t.col == 0 && t.row == 0 &&
            (forall r, c :: 0 <= r < g.rows && 0 <= c < g.cols ==> t.cells[r][c] == Fill(s.bg)) &&
            forall r, c :: 0 <= r < g.rows && r < 64 && 0 <= c < g.cols ==> t.shadow[r][c] == 0
  {
  }

  // ---------------------------------------------------------------------- backspace

  lemma BackspaceAtMargin(g: Grid, s: Screen)
    requires Shape(g, s) && s.col == 0
    ensures Step(g, s, OpBackspace) == s
  {
  }

  lemma BackspaceErases(g: Grid, s: Screen)
    requires Shape(g, s) && s.col > 0
    ensures var t := Step(g, s, OpBackspace);
            t.col == s.col - 1 && t.row == s.row &&
            (forall r, c :: 0 <= r < g.rows && 0 <= c < g.cols ==>
              t.cells[r][c] == if r == s.row && c == s.col - 1 then Fill(s.fg)
                               else if r == s.row && c == s.col then Fill(s.bg) else s.cells[r][c]) &&
            forall r, c :: 0 <= r < g.rows && r < 64 && 0 <= c < g.cols ==>
              t.shadow[r][c] == if r == s.row && c == s.col - 1 then 0 else s.shadow[r][c]
  {
  }

  // ------------------------------------------------------------------------ printing

  lemma PrintOne(g: Grid, s: Screen, c: Byte)
    requires Shape(g, s)
    ensures Step(g, s, OpPrint([c])) == DrawCursor(g, PutChar(g, EraseCursor(g, s), c))
  {
    var u := PutChar(g, EraseCursor(g, s), c);
    assert PutChars(g, u, [c][1..]) == u;
  }

  // A character printed inside the grid: it replaces the cursor, which moves one cell on.
  lemma PrintedChar(g: Grid, s: Screen, c: Byte)
    requires Shape(g, s) && s.row < g.rows
    ensures var t := Step(g, s, OpPrint([c]));
            (if s.col + 1 < g.cols then t.col == s.col + 1 && t.row == s.row else t.col == 0 && t.row == s.row + 1) &&
            (forall i, j :: 0 <= i < g.rows && 0 <= j < g.cols ==>
              t.cells[i][j] == if i == s.row && j == s.col then Glyph(c, s.fg, s.bg)
                               else if i == t.row && j == t.col then Fill(s.fg) else s.cells[i][j]) &&
            forall i, j :: 0 <= i < g.rows && i < 64 && 0 <= j < g.cols ==>
              t.shadow[i][j] == if i == s.row && j == s.col then c else s.shadow[i][j]
  {
    PrintOne(g, s, c);
  }

  // With a wrap pending below the grid everything moves up one row first.
  lemma PrintedBelow(g: Grid, s: Screen, c: Byte)
    requires Shape(g, s) && s.row == g.rows
    ensures var t := Step(g, s, OpPrint([c]));
            (if 1 < g.cols then t.col == 1 && t.row == g.rows - 1 else t.col == 0 && t.row == g.rows) &&
            (forall i, j :: 0 <= i < g.rows && 0 <= j < g.cols ==>
              t.cells[i][j] == if i + 1 < g.rows then s.cells[i + 1][j]
                               else if j == 0 then Glyph(c, s.fg, s.bg)
                               else if j == 1 then Fill(s.fg) else Fill(0)) &&
            forall i, j :: 0 <= i < g.rows && i < 64 && 0 <= j < g.cols ==>
              t.shadow[i][j] == if i + 1 < g.rows && i < 63 then s.shadow[i + 1][j]
                                else if i + 1 == g.rows && j == 0 then c else 0
  {
    PrintOne(g, s, c);
  }

  lemma PrintNothing(g: Grid, s: Screen)
    requires Shape(g, s)
    ensures Step(g, s, OpPrint([])) == Step(g, s, OpCursor(true))
  {
    var t, u := Step(g, s, OpPrint([])), Step(g, s, OpCursor(true));
    if s.row < g.rows { assert t.cells[s.row] == u.cells[s.row]; }
  }

  // ------------------------------------------------------------------------- println

  // fb_draw_char in any two colours: one cell and its byte of screen_buf.
  lemma DrawnChar(g: Grid, s: Screen, col: nat, row: nat, c: Byte, fg: nat, bg: nat)
    requires Shape(g, s) && row < g.rows && col < g.cols
    ensures var t := DrawColored(g, s, col, row, c, fg, bg);
            t.fg == s.fg && t.bg == s.bg && t.col == s.col && t.row == s.row &&
            (forall i, j :: 0 <= i < g.rows && 0 <= j < g.cols ==>
              t.cells[i][j] == if i == row && j == col then Glyph(c, fg, bg) else s.cells[i][j]) &&
            forall i, j :: 0 <= i < g.rows && i < 64 && 0 <= j < g.cols ==>
              t.shadow[i][j] == if i == row && j == col then c else s.shadow[i][j]
  {
  }

  // write_fb at cell (i, j): the text in its row, as far as that goes.
  lemma {:induction false} WrittenCell(g: Grid, s: Screen, col: nat, row: nat, text: seq<Byte>, i: nat, j: nat)
    requires Shape(g, s) && row < g.rows && i < g.rows && j < g.cols
    ensures WriteFb(g, s, col, row, text).cells[i][j] ==
            if i == row && col <= j < col + |text| then Glyph(text[j - col], s.fg, s.bg) else s.cells[i][j]
    ensures i < 64 ==> WriteFb(g, s, col, row, text).shadow[i][j] ==
                       if i == row && col <= j < col + |text| then text[j - col] else s.shadow[i][j]
    decreases |text|
  {
    if text != [] && col < g.cols {
      DrawnChar(g, s, col, row, text[0], s.fg, s.bg);
      WrittenCell(g, DrawChar(g, s, col, row, text[0]), col + 1, row, text[1..], i, j);
    }
  }

  // println: the cursor is in column 0 of the next row, of the bottom row at most.
  lemma PrintlnCursor(g: Grid, s: Screen, text: seq<Byte>)
    requires Shape(g, s)
    ensures Step(g, s, OpPrintln(text)).col == 0
    ensures Step(g, s, OpPrintln(text)).row == if s.row + 1 < g.rows then s.row + 1 else g.rows - 1
  {
  }

  // Cell (i, j) after it, from above the bottom row.
  lemma PrintedLine(g: Grid, s: Screen, text: seq<Byte>, i: nat, j: nat)
    requires Shape(g, s) && s.row + 1 < g.rows && i < g.rows && j < g.cols
    ensures Step(g, s, OpPrintln(text)).cells[i][j] ==
            if i == s.row && s.col <= j < s.col + |text| then Glyph(text[j - s.col], s.fg, s.bg)
            else if i == s.row && j == s.col then Fill(s.bg)
            else if i == s.row + 1 && j == 0 then Fill(s.fg) else s.cells[i][j]
    ensures i < 64 ==> Step(g, s, OpPrintln(text)).shadow[i][j] ==
                       if i == s.row && s.col <= j < s.col + |text| then text[j - s.col] else s.shadow[i][j]
  {
    WrittenCell(g, EraseCursor(g, s), s.col, s.row, text, i, j);
  }

  // On the bottom row everything moves up after the text is written.
  lemma PrintedLastLine(g: Grid, s: Screen, text: seq<Byte>, i: nat, j: nat)
    requires Shape(g, s) && s.row + 1 == g.rows && i < g.rows && j < g.cols
    ensures Step(g, s, OpPrintln(text)).cells[i][j] ==
            if i == g.rows - 1 then Fill(if j == 0 then s.fg else 0)
            else if i == g.rows - 2 && s.col <= j < s.col + |text| then Glyph(text[j - s.col], s.fg, s.bg)
            else if i == g.rows - 2 && j == s.col then Fill(s.bg) else s.cells[i + 1][j]
  {
    if i + 1 < g.rows { WrittenCell(g, EraseCursor(g, s), s.col, s.row, text, i + 1, j); }
  }


  lemma SavedLastLine(g: Grid, s: Screen, text: seq<Byte>, i: nat, j: nat)
    requires Shape(g, s) && s.row + 1 == g.rows && i < g.rows && j < g.cols
    ensures i < 64 ==> Step(g, s, OpPrintln(text)).shadow[i][j] ==
                       if i == g.rows - 1 || i == 63 then 0
                       else if i == g.rows - 2 && s.col <= j < s.col + |text| then text[j - s.col]
                       else s.shadow[i + 1][j]
  {
    if i + 1 < g.rows { WrittenCell(g, EraseCursor(g, s), s.col, s.row, text, i + 1, j); }
  }

  // With a wrap pending below the grid it moves up before and after.
  lemma PrintedLineBelow(g: Grid, s: Screen, text: seq<Byte>, i: nat, j: nat)
    requires Shape(g, s) && s.row == g.rows && i < g.rows && j < g.cols
    ensures Step(g, s, OpPrintln(text)).cells[i][j] ==
            if i == g.rows - 1 then Fill(if j == 0 then s.fg else 0)
            else if i == g.rows - 2 then (if j < |text| then Glyph(text[j], s.fg, s.bg) else Fill(0))
            else s.cells[i + 2][j]
  {
    if i + 1 < g.rows { WrittenCell(g, Scroll(g, s), 0, g.rows - 1, text, i + 1, j); }
  }


  lemma SavedLineBelow(g: Grid, s: Screen, text: seq<Byte>, i: nat, j: nat)
    requires Shape(g, s) && s.row == g.rows && i < g.rows && j < g.cols
    ensures i < 64 ==> Step(g, s, OpPrintln(text)).shadow[i][j] ==
                       if i == g.rows - 2 && i < 63 then (if j < |text| then text[j] else 0)
                       else if i == g.rows - 1 || i >= 62 then 0 else s.shadow[i + 2][j]
  {
    if i + 1 < g.rows { WrittenCell(g, Scroll(g, s), 0, g.rows - 1, text, i + 1, j); }
  }

  // --------------------------------------------------------------------------- Enter

  // The cursor goes, and no new one is drawn.
  lemma EnterDescends(g: Grid, s: Screen)
    requires Shape(g, s) && s.row + 1 < g.rows
    ensures var t := Step(g, s, OpEnter);
            t.col == 0 && t.row == s.row + 1 && t.shadow == s.shadow &&
            forall r, c :: 0 <= r < g.rows && 0 <= c < g.cols ==>
              t.cells[r][c] == if r == s.row && c == s.col then Fill(s.bg) else s.cells[r][c]
  {
  }

  lemma EnterScrolls(g: Grid, s: Screen)
    requires Shape(g, s) && s.row + 1 >= g.rows
    ensures var t := Step(g, s, OpEnter);
            t.col == 0 && t.row == g.rows - 1 &&
            (forall r, c :: 0 <= r < g.rows && 0 <= c < g.cols ==>
              t.cells[r][c] == if r == g.rows - 1 then Fill(0)
                               else if r + 1 == s.row && c == s.col then Fill(s.bg) else s.cells[r + 1][c]) &&
            forall r, c :: 0 <= r < g.rows && r < 64 && 0 <= c < g.cols ==>
              t.shadow[r][c] == if r == g.rows - 1 || r == 63 then 0 else s.shadow[r + 1][c]
  {
  }
}
