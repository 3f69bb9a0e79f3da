// The terminal's bounded grid against an unbounded transcript: the lines ever written,
// wrapped at the grid's width, the cursor at their end.
module Transcript {
  import opened Words
  import opened Terminal
  import opened Bits

  // The lines so far; the last one holds the cursor, or is full and the wrap is pending.
  type Lines = seq<seq<Byte>>

  function Last(ls: Lines): seq<Byte>
    requires ls != []
  {
    ls[|ls| - 1]
  }

  function WithLast(ls: Lines, line: seq<Byte>): Lines
    requires ls != []
  {
    ls[|ls| - 1 := line]
  }

  // ------------------------------------------------------------------ operations

  function TypeChar(cols: nat, ls: Lines, c: Byte): (out: Lines)
    requires ls != []
    ensures out != []
  {
    if |Last(ls)| >= cols then ls + [[c]] else WithLast(ls, Last(ls) + [c])
  }

  function TypeText(cols: nat, ls: Lines, text: seq<Byte>): (out: Lines)
    requires ls != []
    ensures out != []
    decreases |text|
  {
    if text == [] then ls else TypeText(cols, TypeChar(cols, ls, text[0]), text[1..])
  }

  function Prefix(text: seq<Byte>, n: nat): seq<Byte> {
    if |text| <= n then text else text[..n]
  }

  // A full last line is closed before more is written.
  function Opened(cols: nat, ls: Lines): (out: Lines)
    requires ls != []
    ensures out != []
  {
    if |Last(ls)| >= cols then ls + [[]] else ls
  }

  // println cuts the text at the right margin instead of wrapping it.
  function TypeLine(cols: nat, ls: Lines, text: seq<Byte>): (out: Lines)
    requires ls != []
    ensures out != []
  {
    var o := Opened(cols, ls);
    WithLast(o, Prefix(Last(o) + text, cols)) + [[]]
  }

  function RubOut(cols: nat, ls: Lines): (out: Lines)
    requires ls != []
    ensures out != []
  {
    if Last(ls) == [] || |Last(ls)| >= cols then ls else WithLast(ls, Last(ls)[..|Last(ls)| - 1])
  }

  // What pressing Enter should do: end the line, be it full or not.
  function NewLine(cols: nat, ls: Lines): (out: Lines)
    requires ls != []
    ensures out != []
  {
    Opened(cols, ls) + [[]]
  }

  // What it does: a full line on the bottom row is only opened, since the grid scrolls once.
  function EnterLine(g: Grid, ls: Lines): (out: Lines)
    requires ls != []
    ensures out != [] && Last(out) == []
  {
    if |Last(ls)| >= g.cols && |ls| >= g.rows then ls + [[]] else NewLine(g.cols, ls)
  }

  function Apply(g: Grid, ls: Lines, op: Op): (out: Lines)
    requires ls != []
    ensures out != []
  {
    match op
    case OpPrint(text) => TypeText(g.cols, ls, text)
    case OpPrintln(text) => TypeLine(g.cols, ls, text)
    case OpBackspace => RubOut(g.cols, ls)
    case OpClear => [[]]
    case OpTheme(_, _) => ls
    case OpEnter => EnterLine(g, ls)
    case OpCursor(_) => ls
  }

  function ApplyAll(g: Grid, ls: Lines, ops: seq<Op>): (out: Lines)
    requires ls != []
    ensures out != []
    decreases |ops|
  {
    if ops == [] then ls else ApplyAll(g, Apply(g, ls, ops[0]), ops[1..])
  }

  // ------------------------------------------------------------------- the window

  // Lines scrolled off the top.
  function Top(g: Grid, ls: Lines): nat {
    if |ls| > g.rows then |ls| - g.rows else 0
  }

  function CharAt(ls: Lines, i: nat, c: nat): Byte {
    if i < |ls| && c < |ls[i]| then ls[i][c] else 0
  }

  predicate Wrapped(g: Grid, ls: Lines) {
    ls != [] && forall i :: 0 <= i < |ls| ==> |ls[i]| <= g.cols
  }

  // The grid shows the last fb_rows lines, blank after their ends, and the cursor stands
  // at the end of the last line.
  ghost predicate Shows(g: Grid, s: Screen, ls: Lines)
    requires Shape(g, s)
  {
    Wrapped(g, ls) &&
    s.row == (if |Last(ls)| == g.cols then |ls| - Top(g, ls) else |ls| - Top(g, ls) - 1) &&
    s.col == (if |Last(ls)| == g.cols then 0 else |Last(ls)|) &&
    ShowsRows(g, s, ls)
  }

  ghost predicate ShowsRows(g: Grid, s: Screen, ls: Lines)
    requires Framed(g, s)
  {
    forall r, c :: 0 <= r < g.BufRows() && 0 <= c < g.cols ==> s.shadow[r][c] == CharAt(ls, Top(g, ls) + r, c)
  }

  lemma StartShows(g: Grid)
    requires g.Good() && g.rows <= MAX_ROWS
    ensures Shows(g, Start(g), [[]])
  {
  }

  // fb_scroll when the cursor is below the grid: the window moves to the opened line.
  lemma OpenShows(g: Grid, s: Screen, ls: Lines)
    requires Shape(g, s) && g.rows <= MAX_ROWS && Shows(g, s, ls)
    ensures var o := Opened(g.cols, ls);
            Wrapped(g, o) && |Last(o)| < g.cols && Shows(g, ScrollIfBelow(g, s), o)
  {
  }

  // One more character on an open last line.
  lemma WriteShows(g: Grid, s: Screen, ls: Lines, c: Byte)
    requires Shape(g, s) && g.rows <= MAX_ROWS && Shows(g, s, ls) && |Last(ls)| < g.cols
    ensures ShowsRows(g, DrawChar(g, s, s.col, s.row, c), WithLast(ls, Last(ls) + [c]))
  {
  }

  lemma TypeCharShows(g: Grid, s: Screen, ls: Lines, c: Byte)
    requires Shape(g, s) && g.rows <= MAX_ROWS && Shows(g, s, ls)
    ensures Shows(g, PutChar(g, s, c), TypeChar(g.cols, ls, c))
  {
    OpenShows(g, s, ls);
    var o := Opened(g.cols, ls);
    WriteShows(g, ScrollIfBelow(g, s), o, c);
    TypeOpened(g.cols, ls, c);
    CursorAfterChar(g, ScrollIfBelow(g, s), o, c);
  }

  lemma TypeOpened(cols: nat, ls: Lines, c: Byte)
    requires ls != []
    ensures var o := Opened(cols, ls); TypeChar(cols, ls, c) == WithLast(o, Last(o) + [c])
  {
    assert [] + [c] == [c];
  }

  lemma CursorAfterChar(g: Grid, s: Screen, ls: Lines, c: Byte)
    requires Shape(g, s) && s.row < g.rows && Shows(g, s, ls) && |Last(ls)| < g.cols
    requires ShowsRows(g, DrawChar(g, s, s.col, s.row, c), WithLast(ls, Last(ls) + [c]))
    ensures Shows(g, PutChar(g, s, c), WithLast(ls, Last(ls) + [c]))
  {
  }

  lemma {:induction false} TypeTextShows(g: Grid, s: Screen, ls: Lines, text: seq<Byte>)
    requires Shape(g, s) && g.rows <= MAX_ROWS && Shows(g, s, ls)
    ensures Shows(g, PutChars(g, s, text), TypeText(g.cols, ls, text))
    decreases |text|
  {
    if text != [] {
      TypeCharShows(g, s, ls, text[0]);
      TypeTextShows(g, PutChar(g, s, text[0]), TypeChar(g.cols, ls, text[0]), text[1..]);
    }
  }

  // write_fb stores the text from column col on, up to the margin, and nothing else.
  lemma {:induction false} WriteFbShadow(g: Grid, s: Screen, col: nat, row: nat, text: seq<Byte>)
    requires Shape(g, s) && row < g.rows && g.rows <= MAX_ROWS
    ensures forall r, c :: 0 <= r < g.BufRows() && 0 <= c < g.cols ==>
              WriteFb(g, s, col, row, text).shadow[r][c] ==
              if r == row && col <= c < col + |text| then text[c - col] else s.shadow[r][c]
    decreases |text|
  {
    if text != [] && col < g.cols {
      WriteFbShadow(g, DrawChar(g, s, col, row, text[0]), col + 1, row, text[1..]);
    }
  }

  lemma CharOfLine(line: seq<Byte>, text: seq<Byte>, cols: nat, c: nat)
    requires |line| < cols && c < cols
    ensures var p := Prefix(line + text, cols);
            (if c < |p| then p[c] else 0) ==
            if |line| <= c < |line| + |text| then text[c - |line|] else if c < |line| then line[c] else 0
  {
  }

  lemma LineCell(g: Grid, s: Screen, ls: Lines, text: seq<Byte>, r: nat, c: nat)
    requires Shape(g, s) && g.rows <= MAX_ROWS && Shows(g, s, ls) && |Last(ls)| < g.cols
    requires r < g.BufRows() && c < g.cols
    ensures CharAt(WithLast(ls, Prefix(Last(ls) + text, g.cols)), Top(g, ls) + r, c) ==
            if r == s.row && s.col <= c < s.col + |text| then text[c - s.col] else s.shadow[r][c]
  {
    assert s.shadow[r][c] == CharAt(ls, Top(g, ls) + r, c);
    if r == s.row { CharOfLine(Last(ls), text, g.cols, c); }
  }

  lemma LineWritten(g: Grid, s: Screen, ls: Lines, text: seq<Byte>, w: Screen)
    requires Shape(g, s) && g.rows <= MAX_ROWS && Shows(g, s, ls) && |Last(ls)| < g.cols && Framed(g, w)
    requires forall r, c :: 0 <= r < g.BufRows() && 0 <= c < g.cols ==>
               w.shadow[r][c] == if r == s.row && s.col <= c < s.col + |text| then text[c - s.col] else s.shadow[r][c]
    ensures ShowsRows(g, w, WithLast(ls, Prefix(Last(ls) + text, g.cols)))
  {
    var out := WithLast(ls, Prefix(Last(ls) + text, g.cols));
    forall r, c | 0 <= r < g.BufRows() && 0 <= c < g.cols
      ensures w.shadow[r][c] == CharAt(out, Top(g, out) + r, c)
    {
      LineCell(g, s, ls, text, r, c);
    }
  }

  lemma WriteLineShows(g: Grid, s: Screen, ls: Lines, text: seq<Byte>)
    requires Shape(g, s) && g.rows <= MAX_ROWS && Shows(g, s, ls) && |Last(ls)| < g.cols
    ensures ShowsRows(g, WriteFb(g, s, s.col, s.row, text), WithLast(ls, Prefix(Last(ls) + text, g.cols)))
  {
    WriteFbShadow(g, s, s.col, s.row, text);
    LineWritten(g, s, ls, text, WriteFb(g, s, s.col, s.row, text));
  }

  // Ending a line: down one row, scrolling if that leaves the grid.
  lemma EndLineShows(g: Grid, s: Screen, ls: Lines)
    requires Framed(g, s) && g.rows <= MAX_ROWS && Wrapped(g, ls) && ShowsRows(g, s, ls)
    requires s.row == |ls| - Top(g, ls) && s.col == 0
    ensures Shows(g, ScrollIfBelow(g, s), ls + [[]])
  {
  }

  lemma TypeLineShows(g: Grid, s: Screen, ls: Lines, text: seq<Byte>)
    requires Shape(g, s) && g.rows <= MAX_ROWS && Shows(g, s, ls)
    ensures Shows(g, WriteLine(g, s, text), TypeLine(g.cols, ls, text))
  {
    var o, u := Opened(g.cols, ls), ScrollIfBelow(g, s);
    OpenShows(g, s, ls);
    WriteLineShows(g, u, o, text);
    var w := WriteFb(g, u, u.col, u.row, text);
    EndLineShows(g, w.(col := 0, row := w.row + 1), WithLast(o, Prefix(Last(o) + text, g.cols)));
  }

  lemma RubOutShows(g: Grid, s: Screen, ls: Lines)
    requires Shape(g, s) && g.rows <= MAX_ROWS && Shows(g, s, ls)
    ensures Shows(g, Backspace(g, s), RubOut(g.cols, ls))
  {
  }

  // The Enter key: down one row from the cursor's, even from below the grid.
  lemma EnterShows(g: Grid, s: Screen, ls: Lines)
    requires Shape(g, s) && g.rows <= MAX_ROWS && Shows(g, s, ls)
    ensures Shows(g, Enter(g, s), EnterLine(g, ls))
  {
    var e := EraseCursor(g, s);
    OpenShows(g, e, ls);
    if s.row < g.rows {
      var t := e.(row := e.row + 1);
      EndLineShows(g, t.(col := 0), Opened(g.cols, ls));
      assert ScrollIfBelow(g, t.(col := 0)) == ScrollIfBelow(g, t).(col := 0);
    } else {
      assert Enter(g, s) == ScrollIfBelow(g, e);
    }
  }

  // ------------------------------------------------------------- cursor painting

  lemma CursorIsNotText(g: Grid, s: Screen, ls: Lines, color: nat)
    requires Shape(g, s) && Shows(g, s, ls)
    ensures Shows(g, PaintCursor(g, s, color), ls)
  {
  }

  lemma PrintShows(g: Grid, s: Screen, ls: Lines, text: seq<Byte>)
    requires Shape(g, s) && g.rows <= MAX_ROWS && Shows(g, s, ls)
    ensures Shows(g, Print(g, s, text), TypeText(g.cols, ls, text))
  {
    var e := EraseCursor(g, s);
    CursorIsNotText(g, s, ls, s.bg);
    TypeTextShows(g, e, ls, text);
    var t := PutChars(g, e, text);
    CursorIsNotText(g, t, TypeText(g.cols, ls, text), t.fg);
  }

  lemma PrintlnShows(g: Grid, s: Screen, ls: Lines, text: seq<Byte>)
    requires Shape(g, s) && g.rows <= MAX_ROWS && Shows(g, s, ls)
    ensures Shows(g, Println(g, s, text), TypeLine(g.cols, ls, text))
  {
    var e := EraseCursor(g, s);
    CursorIsNotText(g, s, ls, s.bg);
    TypeLineShows(g, e, ls, text);
    CursorIsNotText(g, WriteLine(g, e, text), TypeLine(g.cols, ls, text), s.fg);
  }

  lemma StepShows(g: Grid, s: Screen, ls: Lines, op: Op)
    requires Shape(g, s) && g.rows <= MAX_ROWS && Shows(g, s, ls)
    ensures Shows(g, Step(g, s, op), Apply(g, ls, op))
  {
    CursorIsNotText(g, s, ls, s.bg);
    match op
    case OpPrint(text) => PrintShows(g, s, ls, text);
    case OpPrintln(text) => PrintlnShows(g, s, ls, text);
    case OpBackspace => RubOutShows(g, s, ls);
    case OpClear =>
    case OpTheme(fg, bg) => ThemeShows(g, s, ls, fg, bg);
    case OpEnter => EnterShows(g, s, ls);
    case OpCursor(on) => CursorIsNotText(g, s, ls, s.fg);
  }

  lemma ThemeShows(g: Grid, s: Screen, ls: Lines, fg: nat, bg: nat)
    requires Shape(g, s) && Shows(g, s, ls)
    ensures Shows(g, UpdateTheme(g, s, fg, bg), ls)
  {
  }

  // The one departure from ending the line: Enter with a wrap pending below the bottom
  // row of a grid of two rows or more scrolls one line where it should scroll two.
  lemma EnterShowsIff(g: Grid, s: Screen, ls: Lines)
    requires Shape(g, s) && g.rows <= MAX_ROWS && Shows(g, s, ls) && 0 !in Last(ls)
    ensures Shows(g, Enter(g, s), NewLine(g.cols, ls)) <==> s.row < g.rows || g.rows == 1
  {
    if s.row < g.rows {
      EnterShows(g, s, ls);
    } else if g.rows == 1 {
      assert NewLine(g.cols, ls) == ls + [[]] + [[]];
    } else {
      var t, n, r := Enter(g, s), NewLine(g.cols, ls), g.rows - 2;
      assert s.shadow[r + 1][0] == CharAt(ls, Top(g, ls) + (r + 1), 0);
      assert Top(g, ls) + (r + 1) == |ls| - 1 && Last(ls)[0] in Last(ls);
      assert t.shadow[r] == s.shadow[r + 1];
      assert n == ls + [[]] + [[]] && CharAt(n, Top(g, n) + r, 0) == 0;
      assert t.shadow[r][0] != CharAt(n, Top(g, n) + r, 0);
    }
  }

  // After every run the grid is the scrolling window over the transcript.
  lemma {:induction false} RunsShow(g: Grid, s: Screen, ls: Lines, ops: seq<Op>)
    requires Shape(g, s) && g.rows <= MAX_ROWS && Shows(g, s, ls)
    ensures Shows(g, Run(g, s, ops), ApplyAll(g, ls, ops))
    decreases |ops|
  {
    if ops != [] {
      StepShows(g, s, ls, ops[0]);
      RunsShow(g, Step(g, s, ops[0]), Apply(g, ls, ops[0]), ops[1..]);
    }
  }

  // ------------------------------------------------------- printing is concatenative

  lemma {:induction false} PutCharsAppend(g: Grid, s: Screen, a: seq<Byte>, b: seq<Byte>)
    requires Shape(g, s)
    ensures PutChars(g, s, a + b) == PutChars(g, PutChars(g, s, a), b)
    decreases |a|
  {
    if a == [] {
      assert a + b == b;
    } else {
      assert (a + b)[0] == a[0] && (a + b)[1..] == a[1..] + b;
      PutCharsAppend(g, PutChar(g, s, a[0]), a[1..], b);
    }
  }

  lemma PutTwice<T>(m: seq<seq<T>>, r: nat, c: nat, a: T, b: T)
    requires r < |m| && c < |m[r]|
    ensures Put(Put(m, r, c, a), r, c, b) == Put(m, r, c, b)
  {
    assert m[r][c := a][c := b] == m[r][c := b];
  }

  // The cursor cell is overwritten by the next character, whatever colour it was.
  lemma CursorCellOverwritten(g: Grid, s: Screen, color: nat, c: Byte)
    requires Shape(g, s)
    ensures PutChar(g, PaintCursor(g, s, color), c) == PutChar(g, s, c)
  {
    if s.row < g.rows {
      PutTwice(s.cells, s.row, s.col, Fill(color), Glyph(c, s.fg, s.bg));
    }
  }

  lemma CursorRepainted(g: Grid, s: Screen, a: nat, b: nat)
    requires Shape(g, s)
    ensures PaintCursor(g, PaintCursor(g, s, a), b) == PaintCursor(g, s, b)
  {
    if s.row < g.rows {
      PutTwice(s.cells, s.row, s.col, Fill(a), Fill(b));
    }
  }

  // Printing s and then t is printing s + t: picture, screen_buf and cursor.
  lemma PrintConcat(g: Grid, s: Screen, a: seq<Byte>, b: seq<Byte>)
    requires Shape(g, s)
    ensures Print(g, Print(g, s, a), b) == Print(g, s, a + b)
  {
    var e := EraseCursor(g, s);
    var x := PutChars(g, e, a);
    PutCharsAppend(g, e, a, b);
    PutCharsColors(g, e, a);
    CursorRepainted(g, x, x.fg, x.bg);
    var y := PaintCursor(g, x, x.bg);
    assert EraseCursor(g, Print(g, s, a)) == y;
    if b == [] {
      CursorRepainted(g, x, x.bg, x.fg);
    } else {
      CursorCellOverwritten(g, x, x.bg, b[0]);
    }
  }

  // Typing looks only at the last line.
  lemma {:induction false} TypeTextSuffix(cols: nat, ls: Lines, b: nat, text: seq<Byte>)
    requires b < |ls|
    ensures b < |TypeText(cols, ls, text)| && TypeText(cols, ls, text)[b..] == TypeText(cols, ls[b..], text)
    decreases |text|
  {
    if text != [] {
      var next := TypeChar(cols, ls, text[0]);
      assert next[b..] == TypeChar(cols, ls[b..], text[0]);
      TypeTextSuffix(cols, next, b, text[1..]);
    }
  }

  // -------------------------------------------------------------- wrapping, in closed form

  // The lines hold the text, character k in line k / cols and column k % cols.
  ghost predicate Wraps(cols: nat, ls: Lines, text: seq<Byte>)
    requires cols > 0
  {
    ls != [] && |Last(ls)| <= cols && |text| == (|ls| - 1) * cols + |Last(ls)| &&
    forall k :: 0 <= k < |text| ==> HoldsChar(cols, ls, text, k)
  }

  predicate HoldsChar(cols: nat, ls: Lines, text: seq<Byte>, k: nat)
    requires cols > 0 && k < |text|
  {
    k / cols < |ls| && k % cols < |ls[k / cols]| && ls[k / cols][k % cols] == text[k]
  }

  // Where the character after `lines` lines, the last of length `last`, goes.
  lemma NextPlace(cols: nat, lines: nat, last: nat)
    requires cols > 0 && lines > 0 && last <= cols
    ensures var n := (lines - 1) * cols + last;
            if last == cols then n / cols == lines && n % cols == 0 && n + 1 == lines * cols + 1
            else n / cols == lines - 1 && n % cols == last
  {
    var n := (lines - 1) * cols + last;
    if last == cols {
      assert n == lines * cols + 0;
      DivModUnique(n, cols, lines, 0);
    } else {
      DivModUnique(n, cols, lines - 1, last);
    }
  }

  lemma WrapsNext(cols: nat, ls: Lines, text: seq<Byte>, c: Byte)
    requires cols > 0 && Wraps(cols, ls, text)
    ensures Wraps(cols, TypeChar(cols, ls, c), text + [c])
  {
    var out, n := TypeChar(cols, ls, c), |text|;
    NextPlace(cols, |ls|, |Last(ls)|);
    forall k | 0 <= k < n + 1 ensures HoldsChar(cols, out, text + [c], k) {
      if k < n { assert HoldsChar(cols, ls, text, k); }
    }
  }

  lemma {:induction false} WrapsAll(cols: nat, ls: Lines, done: seq<Byte>, text: seq<Byte>)
    requires cols > 0 && Wraps(cols, ls, done)
    ensures Wraps(cols, TypeText(cols, ls, text), done + text)
    decreases |text|
  {
    if text == [] {
      assert done + text == done;
    } else {
      WrapsNext(cols, ls, done, text[0]);
      assert done + text == done + [text[0]] + text[1..];
      WrapsAll(cols, TypeChar(cols, ls, text[0]), done + [text[0]], text[1..]);
    }
  }

  // Rubbing out the last character, unless the cursor stands in column 0.
  lemma WrapsRub(cols: nat, ls: Lines, text: seq<Byte>)
    requires cols > 0 && Wraps(cols, ls, text) && 0 < |Last(ls)| < cols
    ensures text != [] && Wraps(cols, RubOut(cols, ls), text[..|text| - 1])
  {
    RubbedChars(cols, ls, text, |text| - 1);
    RubbedLines(cols, ls);
  }

  lemma RubbedLines(cols: nat, ls: Lines)
    requires ls != [] && 0 < |Last(ls)| < cols
    ensures |RubOut(cols, ls)| == |ls| && |Last(RubOut(cols, ls))| == |Last(ls)| - 1
  {
  }

  lemma RubbedChars(cols: nat, ls: Lines, text: seq<Byte>, n: nat)
    requires cols > 0 && Wraps(cols, ls, text) && 0 < |Last(ls)| < cols && n + 1 == |text|
    ensures forall k :: 0 <= k < n ==> HoldsChar(cols, RubOut(cols, ls), text[..n], k)
  {
    NextPlace(cols, |ls|, |Last(ls)| - 1);
    forall k | 0 <= k < n ensures HoldsChar(cols, RubOut(cols, ls), text[..n], k) {
      assert HoldsChar(cols, ls, text, k);
      SameRowBefore(cols, k, n);
      RubbedCell(cols, ls, k / cols, k % cols);
    }
  }

  lemma RubbedCell(cols: nat, ls: Lines, i: nat, c: nat)
    requires ls != [] && 0 < |Last(ls)| < cols && i < |ls| && c < |ls[i]| && (i == |ls| - 1 ==> c < |Last(ls)| - 1)
    ensures var out := RubOut(cols, ls); i < |out| && c < |out[i]| && out[i][c] == ls[i][c]
  {
  }

  lemma SameRowBefore(cols: nat, k: nat, n: nat)
    requires cols > 0 && k < n
    ensures k / cols <= n / cols && (k / cols == n / cols ==> k % cols < n % cols)
  {
    var d := k / cols - n / cols;
    assert k == k / cols * cols + k % cols && n == n / cols * cols + n % cols;
    assert k / cols * cols == n / cols * cols + d * cols;
    assert d > 0 ==> d * cols >= cols;
  }

  // The column the text ends in.
  lemma WrapsEnd(cols: nat, ls: Lines, text: seq<Byte>)
    requires cols > 0 && Wraps(cols, ls, text)
    ensures |text| % cols == if |Last(ls)| == cols then 0 else |Last(ls)|
  {
    NextPlace(cols, |ls|, |Last(ls)|);
  }

  // Printing onto an empty transcript wraps the text at the grid's width.
  lemma PrintWraps(cols: nat, text: seq<Byte>)
    requires cols > 0
    ensures Wraps(cols, TypeText(cols, [[]], text), text)
  {
    WrapsAll(cols, [[]], [], text);
    assert [] + text == text;
  }
}
