// The picture kept up to date by the terminal routines against the one redraw_screen
// would paint from screen_buf.
module Agreement {
  import opened Words
  import opened Terminal
  import opened Bits

  // Reading order: cells at or after the cursor.
  predicate AtOrAfterCursor(s: Screen, r: nat, c: nat) {
    r > s.row || (r == s.row && c >= s.col)
  }

  ghost predicate BlankTail(g: Grid, s: Screen)
    requires Framed(g, s)
  {
    forall r, c :: 0 <= r < g.BufRows() && 0 <= c < g.cols && AtOrAfterCursor(s, r, c) ==> s.shadow[r][c] == 0
  }

  ghost predicate AgreesAt(g: Grid, s: Screen, r: nat, c: nat)
    requires Framed(g, s) && r < g.rows && c < g.cols
  {
    s.cells[r][c] == Painted(g, s, r, c)
  }

  ghost predicate AgreesEverywhere(g: Grid, s: Screen)
    requires Framed(g, s)
  {
    forall r, c :: 0 <= r < g.rows && 0 <= c < g.cols ==> AgreesAt(g, s, r, c)
  }

  // The goal: every cell but the cursor's is what redraw_screen would paint.
  ghost predicate Agrees(g: Grid, s: Screen)
    requires Framed(g, s)
  {
    forall r, c :: 0 <= r < g.rows && 0 <= c < g.cols && !(r == s.row && c == s.col) ==> AgreesAt(g, s, r, c)
  }

  // screen_buf covers the grid, and colours have no bits beyond RGB.
  predicate Covered(g: Grid, s: Screen) {
    Framed(g, s) && g.rows <= MAX_ROWS && s.fg < COLORS && s.bg < COLORS
  }

  ghost predicate Good(g: Grid, s: Screen) {
    Shape(g, s) && Covered(g, s) && BlankTail(g, s) && Agrees(g, s)
  }

  // With the cursor erased; the cursor row may be past the grid.
  ghost predicate Clean(g: Grid, s: Screen) {
    Covered(g, s) && BlankTail(g, s) && AgreesEverywhere(g, s)
  }

  lemma StartIsGood(g: Grid)
    requires g.Good() && g.rows <= MAX_ROWS
    ensures Good(g, Start(g))
  {
  }

  lemma EraseCleans(g: Grid, s: Screen)
    requires Good(g, s)
    ensures Clean(g, EraseCursor(g, s))
  {
    var t := EraseCursor(g, s);
    forall r, c | 0 <= r < g.rows && 0 <= c < g.cols ensures AgreesAt(g, t, r, c) {
      assert (r == s.row && c == s.col) || AgreesAt(g, s, r, c);
    }
  }

  lemma DrawKeeps(g: Grid, s: Screen)
    requires Shape(g, s) && Clean(g, s)
    ensures Good(g, DrawCursor(g, s))
  {
    var t := DrawCursor(g, s);
    forall r, c | 0 <= r < g.rows && 0 <= c < g.cols && !(r == s.row && c == s.col) ensures AgreesAt(g, t, r, c) {
      assert AgreesAt(g, s, r, c);
    }
  }

  lemma ScrollKeeps(g: Grid, s: Screen)
    requires Clean(g, s) && s.row >= g.rows && s.bg == BLACK
    ensures Clean(g, Scroll(g, s.(col := 0)))
  {
    var t := Scroll(g, s.(col := 0));
    forall r, c | 0 <= r < g.rows && 0 <= c < g.cols ensures AgreesAt(g, t, r, c) {
      if r + 1 < g.rows { assert AgreesAt(g, s, r + 1, c); }
    }
  }

  lemma ScrollIfBelowKeeps(g: Grid, s: Screen)
    requires Clean(g, s) && (s.row >= g.rows ==> s.bg == BLACK && s.col == 0)
    ensures Clean(g, ScrollIfBelow(g, s))
  {
    if s.row >= g.rows {
      ScrollKeeps(g, s);
      assert s.(col := 0) == s;
    }
  }

  lemma DrawCharKeeps(g: Grid, s: Screen, col: nat, c: Byte)
    requires Shape(g, s) && Covered(g, s) && AgreesEverywhere(g, s) && s.row < g.rows && col < g.cols && c != 0
    ensures AgreesEverywhere(g, DrawChar(g, s, col, s.row, c))
  {
    var t := DrawChar(g, s, col, s.row, c);
    forall r, k | 0 <= r < g.rows && 0 <= k < g.cols ensures AgreesAt(g, t, r, k) {
      assert AgreesAt(g, s, r, k);
    }
  }

  lemma PutCharKeeps(g: Grid, s: Screen, c: Byte)
    requires Shape(g, s) && Clean(g, s) && c != 0 && (s.row < g.rows || s.bg == BLACK)
    ensures Clean(g, PutChar(g, s, c))
  {
    ScrollIfBelowKeeps(g, s);
    var u := ScrollIfBelow(g, s);
    DrawCharKeeps(g, u, u.col, c);
    var v, t := DrawChar(g, u, u.col, u.row, c), PutChar(g, s, c);
    forall r, k | 0 <= r < g.rows && 0 <= k < g.cols ensures AgreesAt(g, t, r, k) {
      assert AgreesAt(g, v, r, k);
    }
  }

  lemma {:induction false} PutCharsKeep(g: Grid, s: Screen, text: seq<Byte>)
    requires Shape(g, s) && Clean(g, s) && 0 !in text && s.bg == BLACK
    ensures Clean(g, PutChars(g, s, text)) && PutChars(g, s, text).bg == BLACK
    decreases |text|
  {
    if text != [] {
      assert text[0] in text;
      PutCharKeeps(g, s, text[0]);
      PutCharsKeep(g, PutChar(g, s, text[0]), text[1..]);
    }
  }

  // write_fb fills the cursor row from col on; the tail below it stays blank.
  lemma {:induction false} WriteFbKeeps(g: Grid, s: Screen, col: nat, text: seq<Byte>)
    requires Shape(g, s) && Covered(g, s) && AgreesEverywhere(g, s) && s.row < g.rows && 0 !in text
    requires forall r, c :: s.row < r < g.BufRows() && 0 <= c < g.cols ==> s.shadow[r][c] == 0
    ensures var t := WriteFb(g, s, col, s.row, text);
            Covered(g, t) && AgreesEverywhere(g, t) &&
            forall r, c :: s.row < r < g.BufRows() && 0 <= c < g.cols ==> t.shadow[r][c] == 0
    decreases |text|
  {
    if text != [] && col < g.cols {
      assert text[0] in text;
      DrawCharKeeps(g, s, col, text[0]);
      WriteFbKeeps(g, DrawChar(g, s, col, s.row, text[0]), col + 1, text[1..]);
    }
  }

  lemma PrintKeeps(g: Grid, s: Screen, text: seq<Byte>)
    requires Good(g, s) && 0 !in text && s.bg == BLACK
    ensures Good(g, Print(g, s, text))
  {
    EraseCleans(g, s);
    PutCharsKeep(g, EraseCursor(g, s), text);
    DrawKeeps(g, PutChars(g, EraseCursor(g, s), text));
  }

  lemma CursorMoves(g: Grid, s: Screen, row: nat)
    requires Covered(g, s) && AgreesEverywhere(g, s)
    requires forall r, c :: row <= r < g.BufRows() && 0 <= c < g.cols ==> s.shadow[r][c] == 0
    ensures Clean(g, s.(col := 0, row := row))
  {
    var t := s.(col := 0, row := row);
    forall r, c | 0 <= r < g.rows && 0 <= c < g.cols ensures AgreesAt(g, t, r, c) {
      assert AgreesAt(g, s, r, c);
    }
  }

  lemma WriteLineKeeps(g: Grid, s: Screen, text: seq<Byte>)
    requires Shape(g, s) && Clean(g, s) && 0 !in text && (s.bg == BLACK || s.row + 1 < g.rows)
    ensures Clean(g, WriteLine(g, s, text))
  {
    ScrollIfBelowKeeps(g, s);
    var u := ScrollIfBelow(g, s);
    WriteFbKeeps(g, u, u.col, text);
    var w := WriteFb(g, u, u.col, u.row, text);
    CursorMoves(g, w, w.row + 1);
    ScrollIfBelowKeeps(g, w.(col := 0, row := w.row + 1));
  }

  lemma PrintlnKeeps(g: Grid, s: Screen, text: seq<Byte>)
    requires Good(g, s) && 0 !in text && (s.bg == BLACK || s.row + 1 < g.rows)
    ensures Good(g, Println(g, s, text))
  {
    EraseCleans(g, s);
    WriteLineKeeps(g, EraseCursor(g, s), text);
    DrawKeeps(g, WriteLine(g, EraseCursor(g, s), text));
  }

  lemma EnterKeeps(g: Grid, s: Screen)
    requires Good(g, s) && (s.bg == BLACK || s.row + 1 < g.rows)
    ensures Good(g, Enter(g, s))
  {
    EraseCleans(g, s);
    var u := EraseCursor(g, s);
    CursorMoves(g, u, u.row + 1);
    var t := u.(row := u.row + 1);
    ScrollIfBelowKeeps(g, t.(col := 0));
    assert ScrollIfBelow(g, t.(col := 0)) == ScrollIfBelow(g, t).(col := 0);
  }

  lemma BackspaceKeeps(g: Grid, s: Screen)
    requires Good(g, s)
    ensures Good(g, Backspace(g, s))
  {
    if s.col > 0 {
      EraseCleans(g, s);
      var e := EraseCursor(g, s);
      var u := e.(col := s.col - 1);
      var t := SetShadow(g, FillCell(u, u.col, u.row, u.bg), u.col, u.row, 0);
      forall r, c | 0 <= r < g.rows && 0 <= c < g.cols ensures AgreesAt(g, t, r, c) {
        assert AgreesAt(g, e, r, c);
      }
      DrawKeeps(g, t);
    }
  }

  lemma ClearIsGood(g: Grid, s: Screen)
    requires Shape(g, s) && Covered(g, s)
    ensures Good(g, Clear(g, s))
  {
  }

  lemma RedrawIsGood(g: Grid, s: Screen)
    requires Shape(g, s) && Covered(g, s) && BlankTail(g, s)
    ensures Good(g, Redraw(g, s))
  {
    var t := s.(cells := PaintedCells(g, s));
    forall r, c | 0 <= r < g.rows && 0 <= c < g.cols ensures AgreesAt(g, t, r, c) {
    }
    DrawKeeps(g, t);
  }

  // Every routine keeps the picture and screen_buf in agreement on a black background.
  lemma StepKeepsAgreement(g: Grid, s: Screen, op: Op)
    requires Good(g, s) && Legal(op) && s.bg == BLACK
    ensures Good(g, Step(g, s, op))
  {
    match op
    case OpPrint(text) => PrintKeeps(g, s, text);
    case OpPrintln(text) => PrintlnKeeps(g, s, text);
    case OpBackspace => BackspaceKeeps(g, s);
    case OpClear => ClearIsGood(g, s);
    case OpTheme(fg, bg) => RedrawIsGood(g, s.(fg := fg, bg := bg));
    case OpEnter => EnterKeeps(g, s);
    case OpCursor(on) =>
      EraseCleans(g, s);
      if on { DrawAgain(g, s); }
  }

  lemma DrawAgain(g: Grid, s: Screen)
    requires Good(g, s)
    ensures Good(g, DrawCursor(g, s))
  {
    var t := DrawCursor(g, s);
    forall r, c | 0 <= r < g.rows && 0 <= c < g.cols && !(r == s.row && c == s.col) ensures AgreesAt(g, t, r, c) {
      assert AgreesAt(g, s, r, c);
    }
  }

  // The runs whose themes all have a black background.
  predicate BlackRun(ops: seq<Op>) {
    forall i :: 0 <= i < |ops| ==> Legal(ops[i]) && (ops[i].OpTheme? ==> ops[i].bg == BLACK)
  }

  // After any run on a black background every cell outside the cursor is what
  // redraw_screen would paint.
  lemma {:induction false} RunsAgree(g: Grid, s: Screen, ops: seq<Op>)
    requires Good(g, s) && s.bg == BLACK && BlackRun(ops)
    ensures Good(g, Run(g, s, ops)) && Run(g, s, ops).bg == BLACK
    decreases |ops|
  {
    if ops != [] {
      assert Legal(ops[0]) && (ops[0].OpTheme? ==> ops[0].bg == BLACK);
      StepKeepsAgreement(g, s, ops[0]);
      BackgroundOf(g, s, ops[0]);
      RunsAgree(g, Step(g, s, ops[0]), ops[1..]);
    }
  }

  lemma BackgroundOf(g: Grid, s: Screen, op: Op)
    requires Shape(g, s)
    ensures Step(g, s, op).bg == if op.OpTheme? then op.bg else s.bg
  {
    if op.OpPrint? { PutCharsColors(g, EraseCursor(g, s), op.text); }
  }

  // --------------------------------------------------------- other backgrounds

  function Area(rows: nat, cols: nat): nat {
    rows * cols
  }

  // Cells left from the cursor to the end of the grid.
  function Room(g: Grid, s: Screen): nat
    requires Shape(g, s)
  {
    if s.row == g.rows then 0 else Area(g.rows - 1 - s.row, g.cols) + (g.cols - s.col)
  }

  lemma AreaStep(rows: nat, cols: nat)
    requires rows > 0
    ensures Area(rows, cols) == Area(rows - 1, cols) + cols
  {
  }

  lemma RoomStep(g: Grid, s: Screen, c: Byte)
    requires Shape(g, s) && s.row < g.rows
    ensures Room(g, PutChar(g, s, c)) == Room(g, s) - 1
  {
    if s.row + 1 < g.rows { AreaStep(g.rows - 1 - s.row, g.cols); }
    assert Area(0, g.cols) == 0;
  }

  // The state between a scroll on a coloured background and the end of the new row:
  // from the cursor on the bottom row is black instead of theme_bg.
  ghost predicate BlackTail(g: Grid, s: Screen) {
    Shape(g, s) && Covered(g, s) && BlankTail(g, s) && s.row == g.rows - 1 && s.col > 0 &&
    (forall c :: s.col <= c < g.cols ==> s.cells[s.row][c] == Fill(BLACK)) &&
    forall r, c :: 0 <= r < g.rows && 0 <= c < g.cols && (r < s.row || c < s.col) ==> AgreesAt(g, s, r, c)
  }

  lemma PutCharAfterScroll(g: Grid, s: Screen, c: Byte)
    requires Shape(g, s) && Clean(g, s) && c != 0 && s.row == g.rows && g.cols >= 2
    ensures BlackTail(g, PutChar(g, s, c))
  {
    var u := Scroll(g, s);
    var t := PutChar(g, s, c);
    forall r, k | 0 <= r < g.rows && 0 <= k < g.cols && (r < t.row || k < t.col) ensures AgreesAt(g, t, r, k) {
      if r + 1 < g.rows { assert AgreesAt(g, s, r + 1, k); }
    }
  }

  lemma PutCharInTail(g: Grid, s: Screen, c: Byte)
    requires BlackTail(g, s) && c != 0
    ensures var t := PutChar(g, s, c);
            if s.col + 1 < g.cols then BlackTail(g, t) else Clean(g, t) && t.row == g.rows && t.col == 0
  {
    var t := PutChar(g, s, c);
    forall r, k | 0 <= r < g.rows && 0 <= k < g.cols && (r < s.row || k <= s.col) ensures AgreesAt(g, t, r, k) {
      if r < s.row || k < s.col { assert AgreesAt(g, s, r, k); }
    }
  }

  // The column n characters after column col.
  function EndCol(g: Grid, col: nat, n: nat): nat
    requires g.Good()
  {
    (col + n) % g.cols
  }

  lemma EndColStep(g: Grid, col: nat, n: nat)
    requires g.Good() && col < g.cols
    ensures EndCol(g, col, n + 1) == EndCol(g, if col + 1 < g.cols then col + 1 else 0, n)
  {
    assert col + (n + 1) == col + 1 + n;
    if col + 1 == g.cols { FullTurn(g.cols, n); }
  }

  lemma FullTurn(p: nat, n: nat)
    requires p > 0
    ensures (p + n) % p == n % p
  {
    var q, r := n / p, n % p;
    assert n == q * p + r;
    assert p + n == (q + 1) * p + r;
    DivModUnique(p + n, p, q + 1, r);
  }

  lemma EndColHere(g: Grid, col: nat)
    requires g.Good() && col < g.cols
    ensures EndCol(g, col, 0) == col
  {
    DivModUnique(col, g.cols, 0, col);
  }

  // Where the cursor ends, and whether a black tail ends there.
  ghost predicate Ends(g: Grid, t: Screen, col: nat, black: bool) {
    t.col == col &&
    if !black then Shape(g, t) && Clean(g, t)
    else if col == 0 then Shape(g, t) && Clean(g, t) && t.row == g.rows
    else BlackTail(g, t)
  }

  lemma PutCharMode(g: Grid, s: Screen, c: Byte, black: bool)
    requires Shape(g, s) && c != 0 && g.cols >= 2 && if black then BlackTail(g, s) else Clean(g, s)
    ensures var t := PutChar(g, s, c);
            t.col == (if s.col + 1 < g.cols then s.col + 1 else 0) &&
            if (black && s.col + 1 < g.cols) || (!black && s.row == g.rows) then BlackTail(g, t)
            else Clean(g, t) && (black ==> t.row == g.rows)
  {
    if black { PutCharInTail(g, s, c); }
    else if s.row == g.rows { PutCharAfterScroll(g, s, c); }
    else { PutCharKeeps(g, s, c); }
  }

  lemma {:induction false} PutCharsMode(g: Grid, s: Screen, text: seq<Byte>, black: bool)
    requires Shape(g, s) && 0 !in text && g.cols >= 2 && if black then BlackTail(g, s) else Clean(g, s)
    ensures Ends(g, PutChars(g, s, text), EndCol(g, s.col, |text|), black || |text| > Room(g, s))
    decreases |text|
  {
    if text == [] {
      EndColHere(g, s.col);
    } else {
      var c, rest := text[0], text[1..];
      var t := PutChar(g, s, c);
      assert c in text;
      PutCharMode(g, s, c, black);
      EndColStep(g, s.col, |rest|);
      var tail := (black && s.col + 1 < g.cols) || (!black && s.row == g.rows);
      PutCharsMode(g, t, rest, tail);
      if !black && s.row < g.rows { RoomStep(g, s, c); }
      if black && !tail && rest == [] { EndColHere(g, 0); }
    }
  }

  // The calls after which part of a freshly scrolled row stays black.
  predicate LeavesBlack(g: Grid, s: Screen, op: Op)
    requires Shape(g, s)
  {
    match op
    case OpPrint(text) => |text| > Room(g, s) && 0 < EndCol(g, s.col, |text|) < g.cols - 1
    case OpPrintln(text) => s.row + 1 >= g.rows && (g.cols >= 2 || (text == [] && s.row == g.rows >= 2))
    case OpEnter => s.row + 1 >= g.rows && g.cols >= 2
    case _ => false
  }

  // A black cell outside the cursor where redraw_screen would paint the background.
  ghost predicate BlackCell(g: Grid, s: Screen, r: nat, c: nat)
    requires Framed(g, s)
  {
    r < g.rows && c < g.cols && !(r == s.row && c == s.col) && s.bg != BLACK &&
    s.cells[r][c] == Fill(BLACK) && Painted(g, s, r, c) == Fill(s.bg)
  }

  ghost predicate HasBlackCell(g: Grid, s: Screen)
    requires Framed(g, s)
  {
    exists r: nat, c: nat :: BlackCell(g, s, r, c)
  }

  lemma BlackCellDisagrees(g: Grid, s: Screen)
    requires Framed(g, s) && HasBlackCell(g, s)
    ensures !Agrees(g, s)
  {
    var r: nat, c: nat :| BlackCell(g, s, r, c);
    assert !AgreesAt(g, s, r, c);
  }

  // On a coloured background: what a call leaves.
  ghost predicate Outcome(g: Grid, t: Screen, black: bool) {
    Framed(g, t) && if black then HasBlackCell(g, t) else Good(g, t)
  }

  lemma PrintOutcome(g: Grid, s: Screen, text: seq<Byte>)
    requires Good(g, s) && 0 !in text && s.bg != BLACK
    ensures Outcome(g, Print(g, s, text), LeavesBlack(g, s, OpPrint(text)))
  {
    var e := EraseCursor(g, s);
    EraseCleans(g, s);
    if g.cols == 1 {
      PutCharsInColumn(g, e, text);
      DrawKeeps(g, PutChars(g, e, text));
    } else {
      PutCharsMode(g, e, text, false);
      PutCharsColors(g, e, text);
      var t := PutChars(g, e, text);
      if |text| > Room(g, s) && t.col != 0 {
        TailOutcome(g, t);
      } else {
        DrawKeeps(g, t);
      }
    }
  }

  // On a coloured background a print keeps the agreement unless it scrolls and ends
  // inside the new row, before its last column.
  lemma PrintAgreesIff(g: Grid, s: Screen, text: seq<Byte>)
    requires Good(g, s) && 0 !in text && s.bg != BLACK
    ensures Agrees(g, Print(g, s, text)) <==>
            !(|text| > Room(g, s) && 0 < EndCol(g, s.col, |text|) < g.cols - 1)
  {
    PrintOutcome(g, s, text);
    if LeavesBlack(g, s, OpPrint(text)) { BlackCellDisagrees(g, Print(g, s, text)); }
  }

  // In a grid of one column every scrolled row is overwritten at once.
  lemma PutCharInColumn(g: Grid, s: Screen, c: Byte)
    requires Shape(g, s) && Clean(g, s) && c != 0 && g.cols == 1
    ensures Clean(g, PutChar(g, s, c))
  {
    if s.row < g.rows {
      PutCharKeeps(g, s, c);
    } else {
      var t := PutChar(g, s, c);
      forall r, k | 0 <= r < g.rows && 0 <= k < g.cols ensures AgreesAt(g, t, r, k) {
        if r + 1 < g.rows { assert AgreesAt(g, s, r + 1, k); }
      }
    }
  }

  lemma {:induction false} PutCharsInColumn(g: Grid, s: Screen, text: seq<Byte>)
    requires Shape(g, s) && Clean(g, s) && 0 !in text && g.cols == 1
    ensures Clean(g, PutChars(g, s, text))
    decreases |text|
  {
    if text != [] {
      assert text[0] in text;
      PutCharInColumn(g, s, text[0]);
      PutCharsInColumn(g, PutChar(g, s, text[0]), text[1..]);
    }
  }

  // Ending a line of a one-column grid at its last row.
  lemma ColumnScrolls(g: Grid, s: Screen, row: nat)
    requires Covered(g, s) && AgreesEverywhere(g, s) && g.cols == 1 && row >= g.rows
    ensures Good(g, Scroll(g, s.(col := 0, row := row)))
  {
    CursorMoves(g, s, row);
    ScrollAgreesIff(g, s.(col := 0, row := row));
  }

  // Below a one-column grid println writes the first character, as print does.
  lemma FirstCharInColumn(g: Grid, s: Screen, text: seq<Byte>)
    requires Shape(g, s) && Clean(g, s) && s.row == g.rows && g.cols == 1 && text != [] && 0 !in text
    ensures var u := Scroll(g, s);
            var w := WriteFb(g, u, u.col, u.row, text);
            Covered(g, w) && AgreesEverywhere(g, w)
  {
    var u, p := Scroll(g, s), PutChar(g, s, text[0]);
    var w := WriteFb(g, u, u.col, u.row, text);
    assert text[0] in text;
    PutCharInColumn(g, s, text[0]);
    assert w == WriteFb(g, DrawChar(g, u, 0, u.row, text[0]), 1, u.row, text[1..]) == DrawChar(g, u, 0, u.row, text[0]);
    forall r, k | 0 <= r < g.rows && 0 <= k < g.cols ensures AgreesAt(g, w, r, k) {
      assert AgreesAt(g, p, r, k);
    }
  }

  // What println writes below or on the last row of a one-column grid agrees, except for
  // a row scrolled in and left empty.
  lemma WriteFbInColumn(g: Grid, s: Screen, text: seq<Byte>)
    requires Shape(g, s) && Clean(g, s) && 0 !in text && g.cols == 1 && (s.row < g.rows || text != [])
    ensures var u := ScrollIfBelow(g, s);
            var w := WriteFb(g, u, u.col, u.row, text);
            Covered(g, w) && AgreesEverywhere(g, w)
  {
    if s.row < g.rows { WriteFbKeeps(g, s, s.col, text); } else { FirstCharInColumn(g, s, text); }
  }

  lemma WriteLineInColumn(g: Grid, s: Screen, text: seq<Byte>)
    requires Shape(g, s) && Clean(g, s) && 0 !in text && g.cols == 1 && s.row + 1 >= g.rows
    requires s.row < g.rows || text != []
    ensures Good(g, WriteLine(g, s, text))
  {
    var u := ScrollIfBelow(g, s);
    var w := WriteFb(g, u, u.col, u.row, text);
    WriteFbInColumn(g, s, text);
    ColumnScrolls(g, w, w.row + 1);
  }

  // Two rows scrolled in: the upper one stays black.
  lemma EmptyLineInColumn(g: Grid, s: Screen)
    requires Good(g, s) && s.bg != BLACK && g.cols == 1 && s.row == g.rows
    ensures Outcome(g, Println(g, s, []), g.rows >= 2)
  {
    EraseCleans(g, s);
    if g.rows >= 2 { assert BlackCell(g, Println(g, s, []), g.rows - 2, 0); }
  }

  lemma PrintlnInColumn(g: Grid, s: Screen, text: seq<Byte>)
    requires Good(g, s) && 0 !in text && s.bg != BLACK && g.cols == 1 && s.row + 1 >= g.rows
    ensures Outcome(g, Println(g, s, text), LeavesBlack(g, s, OpPrintln(text)))
  {
    EraseCleans(g, s);
    var e := EraseCursor(g, s);
    if s.row < g.rows || text != [] {
      WriteLineInColumn(g, e, text);
      DrawAgain(g, WriteLine(g, e, text));
    } else {
      EmptyLineInColumn(g, s);
    }
  }

  lemma EnterInColumn(g: Grid, s: Screen)
    requires Good(g, s) && g.cols == 1 && s.row + 1 >= g.rows
    ensures Good(g, Enter(g, s))
  {
    EraseCleans(g, s);
    var u := EraseCursor(g, s);
    ColumnScrolls(g, u, u.row + 1);
  }

  lemma TailOutcome(g: Grid, t: Screen)
    requires BlackTail(g, t) && t.bg != BLACK
    ensures Outcome(g, DrawCursor(g, t), t.col + 1 < g.cols)
  {
    var d := DrawCursor(g, t);
    if t.col + 1 < g.cols {
      assert BlackCell(g, d, t.row, t.col + 1);
    } else {
      forall r, c | 0 <= r < g.rows && 0 <= c < g.cols && !(r == d.row && c == d.col) ensures AgreesAt(g, d, r, c) {
        assert AgreesAt(g, t, r, c);
      }
    }
  }

  // fb_scroll itself: on a clean screen the picture agrees afterwards exactly when the
  // background is black, or the new row is the cursor cell alone.
  lemma ScrollAgreesIff(g: Grid, s: Screen)
    requires Clean(g, s) && s.row >= g.rows && s.col == 0
    ensures Agrees(g, Scroll(g, s)) <==> s.bg == BLACK || g.cols == 1
  {
    var t := Scroll(g, s);
    if s.bg == BLACK {
      ScrollKeeps(g, s);
      assert s.(col := 0) == s;
    } else if g.cols == 1 {
      forall r, c | 0 <= r < g.rows && 0 <= c < g.cols && !(r == t.row && c == t.col) ensures AgreesAt(g, t, r, c) {
        assert AgreesAt(g, s, r + 1, c);
      }
    } else {
      assert BlackCell(g, t, g.rows - 1, 1);
      BlackCellDisagrees(g, t);
    }
  }

  lemma StepOutcome(g: Grid, s: Screen, op: Op)
    requires Good(g, s) && Legal(op)
    ensures Outcome(g, Step(g, s, op), s.bg != BLACK && LeavesBlack(g, s, op))
  {
    if s.bg == BLACK {
      StepKeepsAgreement(g, s, op);
    } else if op.OpPrint? {
      PrintOutcome(g, s, op.text);
    } else if op.OpPrintln? {
      if s.row + 1 < g.rows { PrintlnKeeps(g, s, op.text); }
      else if g.cols == 1 { PrintlnInColumn(g, s, op.text); }
      else { PrintlnBlackens(g, s, op.text); }
    } else if op.OpEnter? {
      if s.row + 1 < g.rows { EnterKeeps(g, s); }
      else if g.cols == 1 { EnterInColumn(g, s); }
      else { EnterBlackens(g, s); }
    } else {
      QuietStepKeeps(g, s, op);
    }
  }

  // From an agreeing screen, on any theme, a call keeps the agreement exactly when the
  // background is black or it leaves no black cell behind.
  lemma StepAgreesIff(g: Grid, s: Screen, op: Op)
    requires Good(g, s) && Legal(op)
    ensures Agrees(g, Step(g, s, op)) <==> s.bg == BLACK || !LeavesBlack(g, s, op)
  {
    StepOutcome(g, s, op);
    if s.bg != BLACK && LeavesBlack(g, s, op) { BlackCellDisagrees(g, Step(g, s, op)); }
  }

  // No call of the run leaves a black cell on a coloured background.
  predicate LeavesNoBlack(g: Grid, s: Screen, ops: seq<Op>)
    requires Shape(g, s)
    decreases |ops|
  {
    ops == [] ||
    (!(s.bg != BLACK && LeavesBlack(g, s, ops[0])) && LeavesNoBlack(g, Step(g, s, ops[0]), ops[1..]))
  }

  // The picture agrees after every call of the run.
  ghost predicate AgreesThroughout(g: Grid, s: Screen, ops: seq<Op>)
    requires Shape(g, s)
  {
    forall k :: 0 <= k <= |ops| ==> Agrees(g, Run(g, s, ops[..k]))
  }

  lemma RunPrefix(g: Grid, s: Screen, ops: seq<Op>, k: nat)
    requires Shape(g, s) && 0 < k <= |ops|
    ensures Run(g, s, ops[..k]) == Run(g, Step(g, s, ops[0]), ops[1..][..k - 1])
  {
    assert ops[..k][0] == ops[0] && ops[..k][1..] == ops[1..][..k - 1];
  }

  lemma ThroughoutStep(g: Grid, s: Screen, ops: seq<Op>)
    requires Shape(g, s) && ops != []
    ensures AgreesThroughout(g, s, ops) <==>
            Agrees(g, s) && AgreesThroughout(g, Step(g, s, ops[0]), ops[1..])
  {
    var t, rest := Step(g, s, ops[0]), ops[1..];
    assert Run(g, s, ops[..0]) == s;
    if AgreesThroughout(g, s, ops) {
      forall k | 0 <= k <= |rest| ensures Agrees(g, Run(g, t, rest[..k])) { RunPrefix(g, s, ops, k + 1); }
    }
    if Agrees(g, s) && AgreesThroughout(g, t, rest) {
      forall k | 0 <= k <= |ops| ensures Agrees(g, Run(g, s, ops[..k])) {
        if k > 0 { RunPrefix(g, s, ops, k); }
      }
    }
  }

  // On any themes whatever, a run agrees after every call exactly when no call leaves a
  // black cell on a coloured background.
  lemma {:induction false} RunAgreesIff(g: Grid, s: Screen, ops: seq<Op>)
    requires Good(g, s) && forall i :: 0 <= i < |ops| ==> Legal(ops[i])
    ensures AgreesThroughout(g, s, ops) <==> LeavesNoBlack(g, s, ops)
    decreases |ops|
  {
    if ops != [] {
      var t := Step(g, s, ops[0]);
      ThroughoutStep(g, s, ops);
      StepOutcome(g, s, ops[0]);
      if s.bg != BLACK && LeavesBlack(g, s, ops[0]) {
        BlackCellDisagrees(g, t);
        assert Run(g, t, ops[1..][..0]) == t;
      } else {
        RunAgreesIff(g, t, ops[1..]);
      }
    }
  }

  // Calls that never scroll keep the agreement on every background.
  lemma QuietStepKeeps(g: Grid, s: Screen, op: Op)
    requires Good(g, s) && Legal(op) && !op.OpPrint? && !op.OpPrintln? && !op.OpEnter?
    ensures Good(g, Step(g, s, op))
  {
    match op
    case OpBackspace => BackspaceKeeps(g, s);
    case OpClear => ClearIsGood(g, s);
    case OpTheme(fg, bg) => RedrawIsGood(g, s.(fg := fg, bg := bg));
    case OpCursor(on) =>
      EraseCleans(g, s);
      if on { DrawAgain(g, s); }
  }

  lemma PrintlnBlackens(g: Grid, s: Screen, text: seq<Byte>)
    requires Good(g, s) && s.bg != BLACK && g.cols >= 2 && s.row + 1 >= g.rows
    ensures HasBlackCell(g, Println(g, s, text))
  {
    var t := Println(g, s, text);
    assert t.row == g.rows - 1 && t.col == 0 && t.bg == s.bg;
    assert BlackCell(g, t, g.rows - 1, 1);
  }

  lemma EnterBlackens(g: Grid, s: Screen)
    requires Good(g, s) && s.bg != BLACK && g.cols >= 2 && s.row + 1 >= g.rows
    ensures HasBlackCell(g, Enter(g, s))
  {
    assert BlackCell(g, Enter(g, s), g.rows - 1, 1);
  }

  // ---------------------------------------------------------- tall grids

  function Newlines(n: nat): seq<Op> {
    seq(n, _ => OpPrintln([]))
  }

  lemma EmptyLine(g: Grid, s: Screen)
    requires Shape(g, s) && s.row + 1 < g.rows
    ensures var t := Println(g, s, []);
            t.row == s.row + 1 && t.col == 0 && t.fg == s.fg && t.bg == s.bg
  {
  }

  lemma {:induction false} NewlinesDescend(g: Grid, s: Screen, n: nat)
    requires Shape(g, s) && s.row + n < g.rows && s.col == 0
    ensures var t := Run(g, s, Newlines(n));
            t.row == s.row + n && t.col == 0 && t.fg == s.fg && t.bg == s.bg
    decreases n
  {
    if n > 0 {
      EmptyLine(g, s);
      assert Newlines(n)[0] == OpPrintln([]) && Newlines(n)[1..] == Newlines(n - 1);
      NewlinesDescend(g, Println(g, s, []), n - 1);
    }
  }

  lemma {:induction false} RunThen(g: Grid, s: Screen, ops: seq<Op>, last: Op)
    requires Shape(g, s)
    ensures Run(g, s, ops + [last]) == Step(g, Run(g, s, ops), last)
    decreases |ops|
  {
    if ops == [] {
      assert ops + [last] == [last];
      assert Run(g, Step(g, s, last), []) == Step(g, s, last);
    } else {
      assert (ops + [last])[0] == ops[0] && (ops + [last])[1..] == ops[1..] + [last];
      RunThen(g, Step(g, s, ops[0]), ops[1..], last);
    }
  }

  // A character drawn below row 64 is on the picture but not in screen_buf.
  lemma UnsavedChar(g: Grid, s: Screen, c: Byte)
    requires Shape(g, s) && MAX_ROWS <= s.row < g.rows && s.col == 0
    ensures var t := Print(g, s, [c]);
            t.cells[s.row][0] == Glyph(c, s.fg, s.bg) && Painted(g, t, s.row, 0) == Fill(s.bg) &&
            !(t.row == s.row && t.col == 0)
  {
    var e := EraseCursor(g, s);
    assert PutChars(g, e, [c]) == PutChars(g, PutChar(g, e, c), []) == PutChar(g, e, c);
  }

  // n empty lines and one character.
  function LowChar(n: nat, c: Byte): seq<Op> {
    Newlines(n) + [OpPrint([c])]
  }

  lemma TallGridCell(g: Grid, n: nat, c: Byte)
    requires g.Good() && n == MAX_ROWS < g.rows && c != 0
    ensures var t := Run(g, Start(g), LowChar(n, c));
            BlackRun(LowChar(n, c)) && t.cells[n][0] == Glyph(c, WHITE, BLACK) &&
            Painted(g, t, n, 0) == Fill(BLACK) && !(t.row == n && t.col == 0)
  {
    NewlinesDescend(g, Start(g), n);
    RunThen(g, Start(g), Newlines(n), OpPrint([c]));
    UnsavedChar(g, Run(g, Start(g), Newlines(n)), c);
  }

  lemma TallGridDisagrees(g: Grid, n: nat, c: Byte)
    requires g.Good() && n == MAX_ROWS < g.rows && c != 0
    ensures BlackRun(LowChar(n, c)) && !Agrees(g, Run(g, Start(g), LowChar(n, c)))
  {
    TallGridCell(g, n, c);
    assert !AgreesAt(g, Run(g, Start(g), LowChar(n, c)), n, 0);
  }

  // From start-up, all runs on a black background agree exactly when screen_buf covers
  // every row of the grid.
  lemma AllRunsAgreeIff(g: Grid)
    requires g.Good()
    ensures (forall ops :: BlackRun(ops) ==> Agrees(g, Run(g, Start(g), ops))) <==> g.rows <= 64
  {
    if g.rows <= MAX_ROWS {
      StartIsGood(g);
      forall ops | BlackRun(ops) ensures Agrees(g, Run(g, Start(g), ops)) {
        RunsAgree(g, Start(g), ops);
      }
    } else {
      TallGridDisagrees(g, MAX_ROWS, 65);
    }
  }
}
