// Runs from start-up on which the terminal and the keyboard break their promises.
module FailingRuns {
  import opened Words
  import opened Bits
  import opened Terminal
  import opened Agreement
  import opened Transcript
  import opened KeyTable
  import opened Keyboard

  // ------------------------------------------------------------- a coloured background

  const NAVY: nat := 0x80

  lemma {:induction false} NewlinesKeepGood(g: Grid, s: Screen, n: nat)
    requires Good(g, s) && s.col == 0 && s.row + n < g.rows
    ensures Good(g, Run(g, s, Newlines(n)))
    decreases n
  {
    if n > 0 {
      PrintlnKeeps(g, s, []);
      EmptyLine(g, s);
      assert Newlines(n)[0] == OpPrintln([]) && Newlines(n)[1..] == Newlines(n - 1);
      NewlinesKeepGood(g, Println(g, s, []), n - 1);
    }
  }

  lemma RunFirst(g: Grid, s: Screen, op: Op, ops: seq<Op>)
    requires Shape(g, s)
    ensures Run(g, s, [op] + ops) == Run(g, Step(g, s, op), ops)
  {
    assert ([op] + ops)[0] == op && ([op] + ops)[1..] == ops;
  }

  // A navy theme and as many empty lines as the grid has rows.
  function NavyLines(n: nat): seq<Op> {
    [OpTheme(WHITE, NAVY)] + (Newlines(n) + [OpPrintln([])])
  }

  lemma NavyLinesDisagree(g: Grid, n: nat)
    requires g.Good() && 2 <= g.cols && n + 1 == g.rows <= MAX_ROWS
    ensures !Agrees(g, Run(g, Start(g), NavyLines(n)))
  {
    var s := Start(g);
    StartIsGood(g);
    QuietStepKeeps(g, s, OpTheme(WHITE, NAVY));
    var t := Step(g, s, OpTheme(WHITE, NAVY));
    assert t.col == 0 && t.row == 0 && t.bg == NAVY;
    NewlinesKeepGood(g, t, n);
    NewlinesDescend(g, t, n);
    RunFirst(g, s, OpTheme(WHITE, NAVY), Newlines(n) + [OpPrintln([])]);
    RunThen(g, t, Newlines(n), OpPrintln([]));
    PrintlnBlackens(g, Run(g, t, Newlines(n)), []);
    BlackCellDisagrees(g, Run(g, s, NavyLines(n)));
  }

  // ---------------------------------------------------------- Enter on a full last row

  lemma {:induction false} ApplyThen(g: Grid, ls: Lines, ops: seq<Op>, last: Op)
    requires ls != []
    ensures ApplyAll(g, ls, ops + [last]) == Apply(g, ApplyAll(g, ls, ops), last)
    decreases |ops|
  {
    if ops == [] {
      assert ops + [last] == [last] && [last][1..] == [];
      assert ApplyAll(g, Apply(g, ls, last), []) == Apply(g, ls, last);
    } else {
      assert (ops + [last])[0] == ops[0] && (ops + [last])[1..] == ops[1..] + [last];
      ApplyThen(g, Apply(g, ls, ops[0]), ops[1..], last);
    }
  }

  lemma {:induction false} NewlinesAddLines(g: Grid, ls: Lines, n: nat)
    requires g.Good() && ls != [] && Last(ls) == []
    ensures |ApplyAll(g, ls, Newlines(n))| == |ls| + n && Last(ApplyAll(g, ls, Newlines(n))) == []
    decreases n
  {
    if n > 0 {
      assert Newlines(n)[0] == OpPrintln([]) && Newlines(n)[1..] == Newlines(n - 1);
      NewlinesAddLines(g, TypeLine(g.cols, ls, []), n - 1);
    }
  }

  lemma {:induction false} TypedOnLine(cols: nat, ls: Lines, text: seq<Byte>)
    requires ls != [] && |Last(ls)| + |text| <= cols
    ensures TypeText(cols, ls, text) == WithLast(ls, Last(ls) + text)
    decreases |text|
  {
    if text == [] {
      assert Last(ls) + text == Last(ls);
    } else {
      var next := TypeChar(cols, ls, text[0]);
      assert Last(ls) + text == Last(ls) + [text[0]] + text[1..];
      TypedOnLine(cols, next, text[1..]);
    }
  }

  // Down to the last row, and a text that fills it.
  function FullLastRow(n: nat, text: seq<Byte>): seq<Op> {
    Newlines(n) + [OpPrint(text)]
  }

  lemma FullLastRowLines(g: Grid, n: nat, text: seq<Byte>)
    requires g.Good() && |text| == g.cols
    ensures var ls := ApplyAll(g, [[]], FullLastRow(n, text)); |ls| == n + 1 && Last(ls) == text
  {
    var ls := ApplyAll(g, [[]], Newlines(n));
    ApplyThen(g, [[]], Newlines(n), OpPrint(text));
    NewlinesAddLines(g, [[]], n);
    TypedOnLine(g.cols, ls, text);
    assert [] + text == text;
  }

  lemma EnterDoesNotEndTheLine(g: Grid, n: nat, text: seq<Byte>)
    requires g.Good() && 2 <= n + 1 == g.rows <= MAX_ROWS && |text| == g.cols && 0 !in text
    ensures var s, ls := Run(g, Start(g), FullLastRow(n, text)), ApplyAll(g, [[]], FullLastRow(n, text));
            Shows(g, s, ls) && !Shows(g, Enter(g, s), NewLine(g.cols, ls))
  {
    var s, ls := Run(g, Start(g), FullLastRow(n, text)), ApplyAll(g, [[]], FullLastRow(n, text));
    StartShows(g);
    RunsShow(g, Start(g), [[]], FullLastRow(n, text));
    FullLastRowLines(g, n, text);
    EnterShowsIff(g, s, ls);
  }

  // ------------------------------------------------------------------------- keys

  const TAB: Byte := 0x0F
  const KEY_A: Byte := 0x1E

  // The screen shows no transcript that ends in the prompt and the line.
  ghost predicate OutOfStep(g: Grid, t: Screen, k: Keys) {
    forall out: Lines, c: nat :: !InStep(g, t, out, c, k)
  }

  lemma WrongColumn(g: Grid, t: Screen, k: Keys)
    requires g.Good() && t.col != (2 + |k.line|) % g.cols
    ensures OutOfStep(g, t, k)
  {
    forall out: Lines, c: nat ensures !InStep(g, t, out, c, k) {
      if InStep(g, t, out, c, k) { CursorColumn(g, t, out, c, k); }
    }
  }

  lemma {:induction false} EventThen(g: Grid, s: Screen, k: Keys, es: seq<Event>, e: Event)
    requires Shape(g, s) && Accepted(k, es) && (e.Code? ==> Accepts(AfterAll(k, es), e.code))
    ensures Accepted(k, es + [e]) && AfterAll(k, es + [e]) == After(AfterAll(k, es), e)
    ensures ScreenAfterAll(g, s, k, es + [e]) == ScreenAfter(g, ScreenAfterAll(g, s, k, es), AfterAll(k, es), e)
    decreases |es|
  {
    if es == [] {
      assert es + [e] == [e] && [e][1..] == [];
      assert Accepted(After(k, e), []) && AfterAll(After(k, e), []) == After(k, e);
      assert ScreenAfterAll(g, ScreenAfter(g, s, k, e), After(k, e), []) == ScreenAfter(g, s, k, e);
    } else {
      assert (es + [e])[0] == es[0] && (es + [e])[1..] == es[1..] + [e];
      EventThen(g, ScreenAfter(g, s, k, es[0]), After(k, es[0]), es[1..], e);
    }
  }

  function Letters(n: nat): seq<Event> {
    seq(n, _ => Code(KEY_A, []))
  }

  lemma {:induction false} LettersAreTyped(g: Grid, k: Keys, n: nat)
    requires g.Good() && !k.shift && !k.stopped && |k.line| + n <= LINE_SIZE
    ensures AllComfortable(g, k, Letters(n)) && Accepted(k, Letters(n))
    ensures var k' := AfterAll(k, Letters(n)); |k'.line| == |k.line| + n && !k'.shift && !k'.stopped
    decreases n
  {
    if n > 0 {
      RowKey(false, 2, 0);
      assert Letters(n)[0] == Code(KEY_A, []) && Letters(n)[1..] == Letters(n - 1);
      LettersAreTyped(g, After(k, Code(KEY_A, [])), n - 1);
    }
  }

  lemma TabHasNoChar()
    ensures KeyChar(false, TAB) == 0
  {
    OtherKeys(false);
  }

  lemma TabShown(g: Grid, s: Screen, k: Keys)
    requires Shape(g, s) && !k.shift && !k.stopped && |k.line| < LINE_SIZE
    ensures var e := Code(TAB, []);
            ScreenAfter(g, s, k, e) == Print(g, s, []) && After(k, e) == k.(line := k.line + [0])
  {
    TabHasNoChar();
    OneOp(g, s, OpPrint([]));
    assert Shown(k, TAB, []) == [OpPrint([])];
  }

  lemma PrintsNothing(g: Grid, s: Screen)
    requires Shape(g, s)
    ensures Print(g, s, []).col == s.col
  {
  }

  // From any prompt: the Tab key, which has no character.
  lemma TabBreaksStep(g: Grid, s: Screen, ls: Lines, b: nat, k: Keys)
    requires InStep(g, s, ls, b, k) && 2 <= g.cols && !k.shift && !k.stopped && |k.line| < LINE_SIZE
    ensures OutOfStep(g, ScreenAfter(g, s, k, Code(TAB, [])), After(k, Code(TAB, [])))
  {
    CursorColumn(g, s, ls, b, k);
    TabShown(g, s, k);
    PrintsNothing(g, s);
    NextColumn(g.cols, 2 + |k.line|);
    WrongColumn(g, Print(g, s, []), k.(line := k.line + [0]));
  }

  lemma NextColumn(cols: nat, n: nat)
    requires 2 <= cols
    ensures (n + 1) % cols != n % cols
  {
    var q, r := n / cols, n % cols;
    assert n == q * cols + r;
    if r + 1 < cols {
      DivModUnique(n + 1, cols, q, r + 1);
    } else {
      assert n + 1 == (q + 1) * cols + 0;
      DivModUnique(n + 1, cols, q + 1, 0);
    }
  }

  lemma BackspaceStays(g: Grid, s: Screen, k: Keys)
    requires Shape(g, s) && s.col == 0 && !k.stopped
    ensures ScreenAfter(g, s, k, Code(BACKSPACE, [])) == s
  {
    if k.line != [] { OneOp(g, s, OpBackspace); }
  }

  // Backspace in column 0, on a line that fills its rows.
  lemma BackspaceBreaksStep(g: Grid, s: Screen, ls: Lines, b: nat, k: Keys)
    requires InStep(g, s, ls, b, k) && 2 <= g.cols && !k.stopped && k.line != [] && (2 + |k.line|) % g.cols == 0
    ensures OutOfStep(g, ScreenAfter(g, s, k, Code(BACKSPACE, [])), After(k, Code(BACKSPACE, [])))
  {
    CursorColumn(g, s, ls, b, k);
    BackspaceStays(g, s, k);
    NextColumn(g.cols, 1 + |k.line|);
    WrongColumn(g, s, k.(line := DropLast(k.line)));
  }

  lemma FirstKey(g: Grid, s: Screen, k: Keys, e: Event)
    requires Shape(g, s) && (e.Code? ==> Accepts(k, e.code))
    ensures Accepted(k, [e]) && AfterAll(k, [e]) == After(k, e)
    ensures ScreenAfterAll(g, s, k, [e]) == ScreenAfter(g, s, k, e)
  {
    EventThen(g, s, k, [], e);
    assert [] + [e] == [e];
  }

  // From the first prompt on, the Tab key alone is enough.
  lemma FirstTabBreaksStep(g: Grid, s: Screen, ls: Lines, b: nat, k: Keys)
    requires InStep(g, s, ls, b, k) && 2 <= g.cols && k == Keys(false, false, [])
    ensures Accepted(k, [Code(TAB, [])])
    ensures OutOfStep(g, ScreenAfterAll(g, s, k, [Code(TAB, [])]), AfterAll(k, [Code(TAB, [])]))
  {
    FirstKey(g, s, k, Code(TAB, []));
    TabBreaksStep(g, s, ls, b, k);
  }

  lemma LettersInStep(g: Grid, s: Screen, ls: Lines, b: nat, k: Keys, n: nat) returns (out: Lines, c: nat)
    requires InStep(g, s, ls, b, k) && !k.shift && !k.stopped && |k.line| + n <= LINE_SIZE
    ensures Accepted(k, Letters(n)) && InStep(g, ScreenAfterAll(g, s, k, Letters(n)), out, c, AfterAll(k, Letters(n)))
    ensures var k' := AfterAll(k, Letters(n)); |k'.line| == |k.line| + n && !k'.stopped
  {
    LettersAreTyped(g, k, n);
    KeysInStep(g, s, ls, b, k, Letters(n));
    out, c :| InStep(g, ScreenAfterAll(g, s, k, Letters(n)), out, c, AfterAll(k, Letters(n)));
  }

  lemma LastKeyBreaksStep(g: Grid, s: Screen, k: Keys, es: seq<Event>, e: Event)
    requires Shape(g, s) && Accepted(k, es) && (e.Code? ==> Accepts(AfterAll(k, es), e.code))
    requires OutOfStep(g, ScreenAfter(g, ScreenAfterAll(g, s, k, es), AfterAll(k, es), e), After(AfterAll(k, es), e))
    ensures Accepted(k, es + [e]) && OutOfStep(g, ScreenAfterAll(g, s, k, es + [e]), AfterAll(k, es + [e]))
  {
    EventThen(g, s, k, es, e);
  }

  // So are letters to the end of the row, then Backspace.
  lemma FullRowBreaksStep(g: Grid, s: Screen, ls: Lines, b: nat, k: Keys, n: nat)
    requires InStep(g, s, ls, b, k) && n > 0 && n + 2 == g.cols && k == Keys(false, false, [])
    ensures var es := Letters(n) + [Code(BACKSPACE, [])];
            Accepted(k, es) && OutOfStep(g, ScreenAfterAll(g, s, k, es), AfterAll(k, es))
  {
    var out, c := LettersInStep(g, s, ls, b, k, n);
    BackspaceBreaksStep(g, ScreenAfterAll(g, s, k, Letters(n)), out, c, AfterAll(k, Letters(n)));
    LastKeyBreaksStep(g, s, k, Letters(n), Code(BACKSPACE, []));
  }
}
