// kernel/keyboard.c: scancodes edit a line in step with the display.
module Keyboard {
  import opened Words
  import opened Terminal
  import opened Transcript
  import opened Agreement
  import opened KeyTable
  import opened FrameBuffer
  import Shell

  const LINE_SIZE: nat := 256
  const ENTER: nat := 0x1C
  const BACKSPACE: nat := 0x0E
  const PROMPT: seq<Byte> := [62, 32]      // "> "

  // ---------------------------------------------------------------- specification

  datatype Keys = Keys(shift: bool, stopped: bool, line: seq<Byte>)

  // `output` is what the command on the line shows when the key is Enter.
  datatype Event = Code(code: Byte, output: seq<Op>) | StopKeys | StartKeys

  predicate IsShift(code: nat) {
    code == 0x2A || code == 0x36
  }

  predicate IsUnshift(code: nat) {
    code == 0xAA || code == 0xB6
  }

  // A key press that is neither shift, Enter nor backspace.
  predicate IsTyped(code: nat) {
    code < 0x80 && !IsShift(code) && code != ENTER && code != BACKSPACE
  }

  // Keys that read and write in bounds: Enter and typed keys store into the line, and
  // typed keys look up a map.
  predicate Accepts(k: Keys, code: nat) {
    k.stopped || ((code == ENTER || IsTyped(code) ==> |k.line| < LINE_SIZE) && (IsTyped(code) ==> code < MAP_SIZE))
  }

  function DropLast(line: seq<Byte>): seq<Byte> {
    if line == [] then [] else line[..|line| - 1]
  }

  function Press(k: Keys, code: nat): Keys
    requires Accepts(k, code)
  {
    if k.stopped then k
    else if IsUnshift(code) then k.(shift := false)
    else if code >= 0x80 then k
    else if IsShift(code) then k.(shift := true)
    else if code == ENTER then k.(line := [])
    else if code == BACKSPACE then k.(line := DropLast(k.line))
    else k.(line := k.line + [KeyChar(k.shift, code)])
  }

  // ------------------------------------------------------ scancode by scancode

  lemma RowPressed(k: Keys, r: nat, i: nat)
    requires !k.stopped && |k.line| < 256 && r < 4 && i < |Row(k.shift, r)|
    ensures FirstCode(r) + i < MAP_SIZE
    ensures Press(k, FirstCode(r) + i) == k.(line := k.line + [Row(k.shift, r)[i] as nat % 256])
  {
    RowKey(k.shift, r, i);
  }

  // The keys of the four rows, from the digits down.
  lemma DigitKeys(k: Keys, i: nat)
    requires !k.stopped && |k.line| < 256 && i < 12
    ensures var c := if k.shift then "!@#$%^&*()_+"[i] else "1234567890-="[i];
            Press(k, 0x02 + i) == k.(line := k.line + [c as nat % 256])
  {
    RowPressed(k, 0, i);
  }

  lemma TopKeys(k: Keys, i: nat)
    requires !k.stopped && |k.line| < 256 && i < 12
    ensures var c := if k.shift then "QWERTYUIOP{}"[i] else "qwertyuiop[]"[i];
            Press(k, 0x10 + i) == k.(line := k.line + [c as nat % 256])
  {
    RowPressed(k, 1, i);
  }

  lemma HomeKeys(k: Keys, i: nat)
    requires !k.stopped && |k.line| < 256 && i < 12
    ensures var c := if k.shift then "ASDFGHJKL:\"~"[i] else "asdfghjkl;'`"[i];
            Press(k, 0x1E + i) == k.(line := k.line + [c as nat % 256])
  {
    RowPressed(k, 2, i);
  }

  lemma BottomKeys(k: Keys, i: nat)
    requires !k.stopped && |k.line| < 256 && i < 11
    ensures var c := if k.shift then "|ZXCVBNM<>?"[i] else "\\zxcvbnm,./"[i];
            Press(k, 0x2B + i) == k.(line := k.line + [c as nat % 256])
  {
    RowPressed(k, 3, i);
  }

  // Keypad star, space, and the keys that push a NUL.
  lemma SingleKeys(k: Keys, code: nat)
    requires !k.stopped && |k.line| < 256 && code in {0x37, 0x39, 0x00, 0x01, 0x0F, 0x1D, 0x38}
    ensures var c := if code == 0x37 then 42 else if code == 0x39 then 32 else 0;
            Press(k, code) == k.(line := k.line + [c])
  {
    OtherKeys(k.shift);
  }

  // Shift, Enter, backspace, releases, and a stopped keyboard.
  lemma ControlKeys(k: Keys)
    requires !k.stopped
    ensures Press(k, 0x2A) == Press(k, 0x36) == k.(shift := true)
    ensures Press(k, 0xAA) == Press(k, 0xB6) == k.(shift := false)
    ensures |k.line| < 256 ==> Press(k, 0x1C) == k.(line := [])
    ensures Press(k, 0x0E) == if k.line == [] then k else k.(line := k.line[..|k.line| - 1])
    ensures forall code :: 0x80 <= code < 0x100 && code != 0xAA && code != 0xB6 ==> Press(k, code) == k
  {
  }

  lemma StoppedKeys(k: Keys, code: nat)
    requires k.stopped
    ensures Press(k, code) == k
  {
  }

  // What the display is asked to do.
  lemma ShownKeys(k: Keys, output: seq<Op>)
    requires !k.stopped && |k.line| < 256
    ensures Shown(k, 0x1C, output) == [OpEnter] + output + [OpPrint([62, 32])] + [OpCursor(true)]
    ensures Shown(k, 0x0E, output) == if k.line == [] then [] else [OpBackspace]
    ensures Shown(k, 0x2A, output) == Shown(k, 0x36, output) == []
    ensures forall code :: 0x80 <= code < 0x100 ==> Shown(k, code, output) == []
  {
  }

  // A typed key prints what it pushes, and a NUL is no text.
  lemma ShownTyped(k: Keys, code: nat, output: seq<Op>)
    requires !k.stopped && |k.line| < 256 && code < 58 && code != 0x0E && code != 0x1C && code != 0x2A && code != 0x36
    ensures var line := Press(k, code).line;
            |line| == |k.line| + 1 && line[..|k.line|] == k.line &&
            Shown(k, code, output) == [OpPrint(if line[|k.line|] == 0 then [] else [line[|k.line|]])]
  {
  }

  // The C string {c, 0}: a key without a character gives the empty string.
  function TextOf(c: Byte): seq<Byte> {
    if c == 0 then [] else [c]
  }

  // The terminal routines the handler runs.
  function Shown(k: Keys, code: nat, output: seq<Op>): seq<Op>
    requires Accepts(k, code)
  {
    if k.stopped || code >= 0x80 || IsShift(code) then []
    else if code == ENTER then [OpEnter] + output + [OpPrint(PROMPT)] + [OpCursor(true)]
    else if code == BACKSPACE then if k.line == [] then [] else [OpBackspace]
    else [OpPrint(TextOf(KeyChar(k.shift, code)))]
  }

  // -------------------------------------------------------------------- the handler

  class Driver {
    const display: Display
    const shell: Shell.Tokenizer
    var shift: bool
    var stopped: bool
    var line: array<Byte>
    var lineLen: nat

    ghost predicate Valid()
      reads this, line, display, display.fb, display.screenBuf
    {
      display.Valid() && Shape(display.G(), display.screen) && line.Length == LINE_SIZE && lineLen <= LINE_SIZE &&
      shell.buf.Length == Shell.BUF_SIZE && shell.buf != line
    }

    ghost function State(): Keys
      reads this, line
      requires line.Length == LINE_SIZE && lineLen <= LINE_SIZE
    {
      Keys(shift, stopped, line[..lineLen])
    }

    // kernel_main prints the first prompt before it unmasks the keyboard.
    constructor (display: Display)
      requires display.Valid() && Shape(display.G(), display.screen)
      ensures this.display == display && fresh(line) && fresh(shell.buf)
      ensures Valid() && State() == Keys(false, false, [])
    {
      this.display := display;
      shift, stopped, lineLen := false, false, 0;
      line := new Byte[LINE_SIZE](_ => 0);
      shell := new Shell.Tokenizer();
    }

    // keyboard_handler on scancode `code`. The caller keeps to accepted keys: neither the
    // line buffer nor the maps are bounds-checked. `args` is what shell_exec_args receives,
    // `output` what it then shows.
    method Handle(code: Byte, output: seq<Op>) returns (args: seq<seq<Byte>>)
      requires Valid() && Accepts(State(), code) && forall i :: 0 <= i < |output| ==> Legal(output[i])
      modifies this, line, shell.buf, display, display.fb, display.screenBuf
      ensures Valid() && line == old(line)
      ensures args == if code == ENTER && !old(stopped) then Shell.Arguments(old(State()).line) else []
      ensures State() == Press(old(State()), code)
      ensures display.screen == Run(display.G(), old(display.screen), Shown(old(State()), code, output))
    {
      args := [];
      if stopped { return; }
      if IsUnshift(code) { shift := false; return; }
      if code >= 0x80 { return; }
      if IsShift(code) { shift := true; return; }
      if code == ENTER { args := EnterKey(output); return; }
      if code == BACKSPACE { BackspaceKey(); return; }
      TypedKey(code);
    }

    method EnterKey(output: seq<Op>) returns (args: seq<seq<Byte>>)
      requires Valid() && lineLen < LINE_SIZE && forall i :: 0 <= i < |output| ==> Legal(output[i])
      modifies this`lineLen, line, shell.buf, display, display.fb, display.screenBuf
      ensures Valid() && State() == old(State()).(line := [])
      ensures args == Shell.Arguments(old(State()).line)
      ensures display.screen ==
              Run(display.G(), old(display.screen), [OpEnter] + output + [OpPrint(PROMPT)] + [OpCursor(true)])
    {
      args := Submit();
      display.PerformAll([OpEnter] + output + [OpPrint(PROMPT)] + [OpCursor(true)]);
    }

    // Terminates the line, empties it and hands it to the shell.
    method Submit() returns (args: seq<seq<Byte>>)
      requires Valid() && lineLen < LINE_SIZE
      modifies this`lineLen, line, shell.buf
      ensures Valid() && State() == old(State()).(line := [])
      ensures args == Shell.Arguments(old(State()).line)
    {
      ghost var typed := line[..lineLen];
      line[lineLen] := 0;
      assert line[..lineLen + 1] == typed + [0];
      lineLen := 0;
      args := Shell.ExecLine(shell, line, typed);
    }

    method BackspaceKey()
      requires Valid()
      modifies this`lineLen, display, display.fb, display.screenBuf
      ensures Valid() && State() == old(State()).(line := DropLast(old(State()).line))
      ensures display.screen == Run(display.G(), old(display.screen), if old(lineLen) == 0 then [] else [OpBackspace])
    {
      if lineLen > 0 {
        lineLen := lineLen - 1;
        display.PerformAll([OpBackspace]);
      }
    }

    method TypedKey(code: Byte)
      requires Valid() && lineLen < LINE_SIZE && code < MAP_SIZE
      modifies this`lineLen, line, display, display.fb, display.screenBuf
      ensures Valid() && State() == old(State()).(line := old(State()).line + [KeyChar(shift, code)])
      ensures display.screen == Run(display.G(), old(display.screen), [OpPrint(TextOf(KeyChar(shift, code)))])
    {
      var c := KeyChar(shift, code);
      line[lineLen] := c;
      lineLen := lineLen + 1;
      display.PerformAll([OpPrint(TextOf(c))]);
    }
  }

  // ------------------------------------------------------------------ what is typed

  // Shift is held when the last shift key event was a press.
  predicate ShiftHeld(codes: seq<Byte>) {
    if codes == [] then false
    else
      var last, before := codes[|codes| - 1], codes[..|codes| - 1];
      if IsShift(last) then true else if IsUnshift(last) then false else ShiftHeld(before)
  }

  // The line a history of scancodes leaves: keys push, backspace pops, Enter empties.
  function Edited(codes: seq<Byte>): seq<Byte>
    requires forall i :: 0 <= i < |codes| && IsTyped(codes[i]) ==> codes[i] < MAP_SIZE
  {
    if codes == [] then []
    else
      var last, before := codes[|codes| - 1], codes[..|codes| - 1];
      if last == ENTER then []
      else if last == BACKSPACE then DropLast(Edited(before))
      else if IsTyped(last) then Edited(before) + [KeyChar(ShiftHeld(before), last)]
      else Edited(before)
  }

  function After(k: Keys, e: Event): Keys
    requires e.Code? ==> Accepts(k, e.code)
  {
    match e
    case Code(code, _) => Press(k, code)
    case StopKeys => k.(stopped := true)
    case StartKeys => k.(stopped := false)
  }

  predicate Accepted(k: Keys, es: seq<Event>)
    decreases |es|
  {
    es == [] || ((es[0].Code? ==> Accepts(k, es[0].code)) && Accepted(After(k, es[0]), es[1..]))
  }

  function AfterAll(k: Keys, es: seq<Event>): Keys
    requires Accepted(k, es)
    decreases |es|
  {
    if es == [] then k else AfterAll(After(k, es[0]), es[1..])
  }

  // The scancodes that arrive while the keyboard is not stopped.
  function Heard(stopped: bool, es: seq<Event>): seq<Byte>
    decreases |es|
  {
    if es == [] then []
    else
      match es[0]
      case Code(code, _) => (if stopped then [] else [code]) + Heard(stopped, es[1..])
      case StopKeys => Heard(true, es[1..])
      case StartKeys => Heard(false, es[1..])
  }

  ghost predicate Tracks(k: Keys, codes: seq<Byte>) {
    (forall i :: 0 <= i < |codes| && IsTyped(codes[i]) ==> codes[i] < MAP_SIZE) &&
    k.line == Edited(codes) && k.shift == ShiftHeld(codes)
  }

  lemma PressTracks(k: Keys, codes: seq<Byte>, code: Byte)
    requires Tracks(k, codes) && !k.stopped && Accepts(k, code)
    ensures Tracks(Press(k, code), codes + [code])
  {
    assert (codes + [code])[..|codes|] == codes;
  }

  function HeardOne(stopped: bool, e: Event): seq<Byte> {
    if e.Code? && !stopped then [e.code] else []
  }

  lemma EventTracks(k: Keys, codes: seq<Byte>, e: Event)
    requires Tracks(k, codes) && (e.Code? ==> Accepts(k, e.code))
    ensures Tracks(After(k, e), codes + HeardOne(k.stopped, e))
  {
    if e.Code? && !k.stopped { PressTracks(k, codes, e.code); } else { assert codes + [] == codes; }
  }

  function StopState(stopped: bool, e: Event): bool {
    if e.Code? then stopped else e.StopKeys?
  }

  lemma StopStateAfter(k: Keys, e: Event)
    requires e.Code? ==> Accepts(k, e.code)
    ensures After(k, e).stopped == StopState(k.stopped, e)
  {
  }

  lemma HeardRest(stopped: bool, codes: seq<Byte>, es: seq<Event>)
    requires es != []
    ensures codes + Heard(stopped, es) ==
            codes + HeardOne(stopped, es[0]) + Heard(StopState(stopped, es[0]), es[1..])
  {
    assert [] + Heard(StopState(stopped, es[0]), es[1..]) == Heard(StopState(stopped, es[0]), es[1..]);
  }

  // After any run of events the driver's line and shift state are those of the history.
  lemma {:induction false} LineIsEditedHistory(k: Keys, codes: seq<Byte>, es: seq<Event>)
    requires Tracks(k, codes) && Accepted(k, es)
    ensures Tracks(AfterAll(k, es), codes + Heard(k.stopped, es))
    decreases |es|
  {
    if es == [] {
      assert codes + [] == codes;
    } else {
      EventTracks(k, codes, es[0]);
      LineIsEditedHistory(After(k, es[0]), codes + HeardOne(k.stopped, es[0]), es[1..]);
      StopStateAfter(k, es[0]);
      HeardRest(k.stopped, codes, es);
    }
  }

  lemma FirstEvent(k: Keys, e: Event, es: seq<Event>)
    requires (e.Code? ==> Accepts(k, e.code)) && Accepted(After(k, e), es)
    ensures Accepted(k, [e] + es) && AfterAll(k, [e] + es) == AfterAll(After(k, e), es)
  {
    assert ([e] + es)[0] == e && ([e] + es)[1..] == es;
  }

  lemma ReleasedHistory()
    ensures var k, es := Keys(true, false, [72]), [Code(0xAA, []), Code(0x17, [])];
            Accepted(k, es) && AfterAll(k, es) == Keys(false, false, [72, 105])
  {
    var k2, k3, k4 := Keys(true, false, [72]), Keys(false, false, [72]), Keys(false, false, [72, 105]);
    ControlKeys(k2);
    TopKeys(k3, 7);
    assert AfterAll(k4, []) == k4;
    FirstEvent(k3, Code(0x17, []), []);
    FirstEvent(k2, Code(0xAA, []), [Code(0x17, [])]);
  }

  // Shift down, the key of H, shift up, the key of I: the line reads "Hi".
  lemma ShiftedHistory()
    ensures var k, es := Keys(false, false, []), [Code(0x2A, []), Code(0x23, []), Code(0xAA, []), Code(0x17, [])];
            Accepted(k, es) && AfterAll(k, es) == Keys(false, false, [72, 105])
  {
    var k0, k1, rest := Keys(false, false, []), Keys(true, false, []), [Code(0xAA, []), Code(0x17, [])];
    ReleasedHistory();
    ControlKeys(k0);
    HomeKeys(k1, 5);
    FirstEvent(k1, Code(0x23, []), rest);
    FirstEvent(k0, Code(0x2A, []), [Code(0x23, [])] + rest);
    assert [Code(0x2A, [])] + ([Code(0x23, [])] + rest) ==
           [Code(0x2A, []), Code(0x23, []), Code(0xAA, []), Code(0x17, [])];
  }

  // -------------------------------------------------------------- line and display

  // The prompt and the line stand at the end of the transcript the grid shows, from line
  // b on, wrapped at the grid's width.
  ghost predicate InStep(g: Grid, s: Screen, ls: Lines, b: nat, k: Keys) {
    Shape(g, s) && g.rows <= MAX_ROWS && Shows(g, s, ls) && b < |ls| && Wraps(g.cols, ls[b..], PROMPT + k.line)
  }

  lemma WindowCell(g: Grid, s: Screen, ls: Lines, row: nat, c: nat)
    requires Shape(g, s) && g.rows <= MAX_ROWS && Shows(g, s, ls) && Top(g, ls) <= row < |ls| && c < g.cols
    ensures row - Top(g, ls) < g.BufRows() && s.shadow[row - Top(g, ls)][c] == CharAt(ls, row, c)
  {
    assert s.shadow[row - Top(g, ls)][c] == CharAt(ls, Top(g, ls) + (row - Top(g, ls)), c);
  }

  lemma WrappedChar(cols: nat, ls: Lines, b: nat, text: seq<Byte>, j: nat)
    requires cols > 0 && b < |ls| && Wraps(cols, ls[b..], text) && j < |text|
    ensures b + j / cols < |ls| && CharAt(ls, b + j / cols, j % cols) == text[j]
  {
    assert HoldsChar(cols, ls[b..], text, j);
  }

  lemma CursorColumn(g: Grid, s: Screen, ls: Lines, b: nat, k: Keys)
    requires InStep(g, s, ls, b, k)
    ensures s.col == (2 + |k.line|) % g.cols
  {
    WrapsEnd(g.cols, ls[b..], PROMPT + k.line);
  }

  // So the cells from the prompt to the cursor spell the line, as far as it has not
  // scrolled off the top.
  lemma LineOnScreen(g: Grid, s: Screen, ls: Lines, b: nat, k: Keys, i: nat)
    requires InStep(g, s, ls, b, k) && i < |k.line|
    ensures s.col == (2 + |k.line|) % g.cols
    ensures var row := b + (2 + i) / g.cols;
            row < |ls| && (row >= Top(g, ls) ==> row - Top(g, ls) < g.BufRows() &&
                                                 s.shadow[row - Top(g, ls)][(2 + i) % g.cols] == k.line[i])
  {
    CursorColumn(g, s, ls, b, k);
    WrappedChar(g.cols, ls, b, PROMPT + k.line, 2 + i);
    var row := b + (2 + i) / g.cols;
    if row >= Top(g, ls) { WindowCell(g, s, ls, row, (2 + i) % g.cols); }
  }

  // A command's output ends with a fresh line.
  ghost predicate Tidy(g: Grid, output: seq<Op>) {
    forall ls: Lines :: ls != [] && Last(ls) == [] ==> Last(ApplyAll(g, ls, output)) == []
  }

  // A key keeps line and display in step exactly when it has a character: a key without
  // one lengthens the line and prints nothing.
  lemma TypedInStep(g: Grid, s: Screen, ls: Lines, b: nat, k: Keys, c: Byte)
    requires InStep(g, s, ls, b, k)
    ensures InStep(g, Print(g, s, TextOf(c)), TypeText(g.cols, ls, TextOf(c)), b, k.(line := k.line + [c])) <==> c != 0
  {
    StepShows(g, s, ls, OpPrint(TextOf(c)));
    if c != 0 {
      TypeTextSuffix(g.cols, ls, b, [c]);
      assert TypeText(g.cols, ls[b..], [c]) == TypeText(g.cols, TypeChar(g.cols, ls[b..], c), []);
      WrapsNext(g.cols, ls[b..], PROMPT + k.line, c);
      assert PROMPT + k.line + [c] == PROMPT + (k.line + [c]);
    }
  }

  // Backspace keeps them in step exactly when the cursor is not in column 0: the display
  // does not go back over a wrapped row, the line does.
  lemma BackspaceInStep(g: Grid, s: Screen, ls: Lines, b: nat, k: Keys)
    requires InStep(g, s, ls, b, k) && k.line != []
    ensures InStep(g, Backspace(g, s), RubOut(g.cols, ls), b, k.(line := DropLast(k.line))) <==>
            (2 + |k.line|) % g.cols != 0
  {
    StepShows(g, s, ls, OpBackspace);
    WrapsEnd(g.cols, ls[b..], PROMPT + k.line);
    if (2 + |k.line|) % g.cols != 0 {
      WrapsRub(g.cols, ls[b..], PROMPT + k.line);
      assert RubOut(g.cols, ls)[b..] == RubOut(g.cols, ls[b..]);
      assert (PROMPT + k.line)[..|PROMPT + k.line| - 1] == PROMPT + DropLast(k.line);
    }
  }

  lemma {:induction false} RunAppend(g: Grid, s: Screen, a: seq<Op>, b: seq<Op>)
    requires Shape(g, s)
    ensures Run(g, s, a + b) == Run(g, Run(g, s, a), b)
    decreases |a|
  {
    if a == [] {
      assert a + b == b;
    } else {
      assert (a + b)[0] == a[0] && (a + b)[1..] == a[1..] + b;
      RunAppend(g, Step(g, s, a[0]), a[1..], b);
    }
  }

  // The transcript after Enter and the command's output, and after the new prompt.
  function AfterOutput(g: Grid, ls: Lines, output: seq<Op>): (out: Lines)
    requires ls != []
    ensures out != []
  {
    ApplyAll(g, EnterLine(g, ls), output)
  }

  function AfterEnter(g: Grid, ls: Lines, output: seq<Op>): (out: Lines)
    requires ls != []
    ensures out != []
  {
    TypeText(g.cols, AfterOutput(g, ls, output), PROMPT)
  }

  lemma OneOp(g: Grid, s: Screen, op: Op)
    requires Shape(g, s)
    ensures Run(g, s, [op]) == Step(g, s, op)
  {
    assert [op][1..] == [];
    assert Run(g, Step(g, s, op), []) == Step(g, s, op);
  }

  lemma PromptPrinted(g: Grid, s: Screen, ls: Lines, k: Keys, text: seq<Byte>)
    requires Shape(g, s) && g.rows <= MAX_ROWS && Shows(g, s, ls) && Last(ls) == [] && text == PROMPT
    ensures InStep(g, Print(g, s, text), TypeText(g.cols, ls, text), |ls| - 1, k.(line := []))
  {
    TypeTextSuffix(g.cols, ls, |ls| - 1, text);
    assert ls[|ls| - 1..] == [[]] && text + [] == text;
    PrintWraps(g.cols, text);
    PrintShows(g, s, ls, text);
  }

  lemma CursorInStep(g: Grid, s: Screen, ls: Lines, b: nat, k: Keys)
    requires InStep(g, s, ls, b, k)
    ensures InStep(g, DrawCursor(g, s), ls, b, k)
  {
    CursorIsNotText(g, s, ls, s.fg);
  }

  lemma PromptInStep(g: Grid, s: Screen, ls: Lines, k: Keys)
    requires Shape(g, s) && g.rows <= MAX_ROWS && Shows(g, s, ls) && Last(ls) == []
    ensures InStep(g, DrawCursor(g, Print(g, s, PROMPT)), TypeText(g.cols, ls, PROMPT), |ls| - 1, k.(line := []))
  {
    PromptTextInStep(g, s, ls, k, PROMPT);
  }

  lemma PromptTextInStep(g: Grid, s: Screen, ls: Lines, k: Keys, text: seq<Byte>)
    requires Shape(g, s) && g.rows <= MAX_ROWS && Shows(g, s, ls) && Last(ls) == [] && text == PROMPT
    ensures InStep(g, DrawCursor(g, Print(g, s, text)), TypeText(g.cols, ls, text), |ls| - 1, k.(line := []))
  {
    PromptPrinted(g, s, ls, k, text);
    CursorInStep(g, Print(g, s, text), TypeText(g.cols, ls, text), |ls| - 1, k.(line := []));
  }

  lemma TwoLinesAreTidy(g: Grid, one: seq<Byte>, two: seq<Byte>)
    ensures Tidy(g, [OpPrintln(one), OpPrintln(two)])
  {
    var ops := [OpPrintln(one), OpPrintln(two)];
    forall ls: Lines | ls != [] && Last(ls) == [] ensures Last(ApplyAll(g, ls, ops)) == [] {
      var a := TypeLine(g.cols, ls, one);
      assert ops[1..] == [OpPrintln(two)] && ops[1..][1..] == [];
      assert ApplyAll(g, ls, ops) == ApplyAll(g, a, ops[1..]) == ApplyAll(g, TypeLine(g.cols, a, two), []);
    }
  }

  // kernel_main: two lines of greeting and the first prompt bring line and display in step.
  lemma GreetingInStep(g: Grid, one: seq<Byte>, two: seq<Byte>)
    requires g.Good() && g.rows <= MAX_ROWS
    ensures var ls := ApplyAll(g, [[]], [OpPrintln(one), OpPrintln(two)]);
            InStep(g, Print(g, Run(g, Start(g), [OpPrintln(one), OpPrintln(two)]), PROMPT),
                   TypeText(g.cols, ls, PROMPT), |ls| - 1, Keys(false, false, []))
  {
    var ops := [OpPrintln(one), OpPrintln(two)];
    StartShows(g);
    RunsShow(g, Start(g), [[]], ops);
    TwoLinesAreTidy(g, one, two);
    PromptPrinted(g, Run(g, Start(g), ops), ApplyAll(g, [[]], ops), Keys(false, false, []), PROMPT);
  }

  lemma EnterFirst(g: Grid, s: Screen, ops: seq<Op>)
    requires Shape(g, s)
    ensures Run(g, s, [OpEnter] + ops) == Run(g, Enter(g, s), ops)
  {
    RunAppend(g, s, [OpEnter], ops);
    OneOp(g, s, OpEnter);
  }

  lemma ThenPrint(g: Grid, s: Screen, ops: seq<Op>, text: seq<Byte>)
    requires Shape(g, s)
    ensures Run(g, s, ops + [OpPrint(text)]) == Print(g, Run(g, s, ops), text)
  {
    RunThen(g, s, ops, OpPrint(text));
  }

  lemma ThenCursor(g: Grid, s: Screen, ops: seq<Op>)
    requires Shape(g, s)
    ensures Run(g, s, ops + [OpCursor(true)]) == DrawCursor(g, Run(g, s, ops))
  {
    RunThen(g, s, ops, OpCursor(true));
  }

  lemma OutputShows(g: Grid, s: Screen, ls: Lines, output: seq<Op>)
    requires Shape(g, s) && g.rows <= MAX_ROWS && Shows(g, s, ls) && Tidy(g, output)
    ensures var u, n := Run(g, Enter(g, s), output), AfterOutput(g, ls, output);
            Shows(g, u, n) && Last(n) == []
  {
    EnterShows(g, s, ls);
    RunsShow(g, Enter(g, s), EnterLine(g, ls), output);
  }

  // What keeps line and display in step: keys with a character, backspaces that do not
  // meet a wrap, and commands that end with a fresh line.
  ghost predicate Comfortable(g: Grid, k: Keys, e: Event)
    requires g.Good()
  {
    match e
    case StopKeys => true
    case StartKeys => true
    case Code(code, output) =>
      k.stopped || (Accepts(k, code) && (code == ENTER ==> Tidy(g, output)) &&
                    (code == BACKSPACE && k.line != [] ==> (2 + |k.line|) % g.cols != 0) &&
                    (IsTyped(code) ==> KeyChar(k.shift, code) != 0))
  }

  function ScreenAfter(g: Grid, s: Screen, k: Keys, e: Event): (t: Screen)
    requires Shape(g, s) && (e.Code? ==> Accepts(k, e.code))
    ensures Shape(g, t)
  {
    match e
    case Code(code, output) => Run(g, s, Shown(k, code, output))
    case _ => s
  }

  function LinesAfter(g: Grid, ls: Lines, k: Keys, e: Event): Lines
    requires ls != [] && (e.Code? ==> Accepts(k, e.code))
  {
    if !e.Code? || k.stopped || e.code >= 0x80 || IsShift(e.code) then ls
    else if e.code == ENTER then AfterEnter(g, ls, e.output)
    else if e.code == BACKSPACE then if k.line == [] then ls else RubOut(g.cols, ls)
    else TypeText(g.cols, ls, TextOf(KeyChar(k.shift, e.code)))
  }

  // The line of the transcript the prompt is on.
  function PromptLine(g: Grid, ls: Lines, b: nat, k: Keys, e: Event): nat
    requires ls != []
  {
    if e.Code? && !k.stopped && e.code == ENTER then |AfterOutput(g, ls, e.output)| - 1 else b
  }

  lemma EnterScreen(g: Grid, s: Screen, k: Keys, e: Event)
    requires Shape(g, s) && e.Code? && !k.stopped && e.code == ENTER && Accepts(k, e.code)
    ensures ScreenAfter(g, s, k, e) == DrawCursor(g, Print(g, Run(g, Enter(g, s), e.output), PROMPT))
  {
    var ops := [OpEnter] + e.output;
    EnterFirst(g, s, e.output);
    ThenPrint(g, s, ops, PROMPT);
    ThenCursor(g, s, ops + [OpPrint(PROMPT)]);
  }

  lemma PromptAgain(g: Grid, u: Screen, n: Lines, k: Keys, t: Screen, out: Lines)
    requires Shape(g, u) && g.rows <= MAX_ROWS && Shows(g, u, n) && Last(n) == []
    requires t == DrawCursor(g, Print(g, u, PROMPT)) && out == TypeText(g.cols, n, PROMPT)
    ensures InStep(g, t, out, |n| - 1, k.(line := []))
  {
    PromptInStep(g, u, n, k);
  }

  lemma EnterLines(g: Grid, ls: Lines, k: Keys, e: Event)
    requires ls != [] && e.Code? && !k.stopped && e.code == ENTER && Accepts(k, e.code)
    ensures LinesAfter(g, ls, k, e) == TypeText(g.cols, AfterOutput(g, ls, e.output), PROMPT)
    ensures After(k, e) == k.(line := [])
  {
  }

  lemma EnterInStep(g: Grid, s: Screen, ls: Lines, k: Keys, e: Event)
    requires Shape(g, s) && g.rows <= MAX_ROWS && Shows(g, s, ls)
    requires Comfortable(g, k, e) && e.Code? && !k.stopped && e.code == ENTER
    ensures InStep(g, ScreenAfter(g, s, k, e), LinesAfter(g, ls, k, e), |AfterOutput(g, ls, e.output)| - 1, After(k, e))
  {
    EnterScreen(g, s, k, e);
    EnterLines(g, ls, k, e);
    OutputShows(g, s, ls, e.output);
    PromptAgain(g, Run(g, Enter(g, s), e.output), AfterOutput(g, ls, e.output), k,
                ScreenAfter(g, s, k, e), LinesAfter(g, ls, k, e));
  }

  lemma EditInStep(g: Grid, s: Screen, ls: Lines, b: nat, k: Keys, e: Event)
    requires InStep(g, s, ls, b, k) && Comfortable(g, k, e) && e.Code? && !k.stopped
    requires e.code == BACKSPACE || IsTyped(e.code)
    ensures InStep(g, ScreenAfter(g, s, k, e), LinesAfter(g, ls, k, e), b, After(k, e))
  {
    if e.code != BACKSPACE {
      var c := KeyChar(k.shift, e.code);
      OneOp(g, s, OpPrint(TextOf(c)));
      TypedInStep(g, s, ls, b, k, c);
    } else if k.line != [] {
      OneOp(g, s, OpBackspace);
      BackspaceInStep(g, s, ls, b, k);
    }
  }

  lemma EventInStep(g: Grid, s: Screen, ls: Lines, b: nat, k: Keys, e: Event)
    requires InStep(g, s, ls, b, k) && Comfortable(g, k, e)
    ensures InStep(g, ScreenAfter(g, s, k, e), LinesAfter(g, ls, k, e), PromptLine(g, ls, b, k, e), After(k, e))
  {
    if e.Code? && !k.stopped && e.code == ENTER {
      EnterInStep(g, s, ls, k, e);
    } else if e.Code? && !k.stopped && (e.code == BACKSPACE || IsTyped(e.code)) {
      EditInStep(g, s, ls, b, k, e);
    }
  }

  ghost predicate AllComfortable(g: Grid, k: Keys, es: seq<Event>)
    requires g.Good()
    decreases |es|
  {
    es == [] || (Comfortable(g, k, es[0]) && AllComfortable(g, After(k, es[0]), es[1..]))
  }

  function ScreenAfterAll(g: Grid, s: Screen, k: Keys, es: seq<Event>): (t: Screen)
    requires Shape(g, s) && Accepted(k, es)
    ensures Shape(g, t)
    decreases |es|
  {
    if es == [] then s else ScreenAfterAll(g, ScreenAfter(g, s, k, es[0]), After(k, es[0]), es[1..])
  }

  // After any comfortable run the screen still shows the prompt and exactly the line the
  // driver holds, with the cursor behind it.
  lemma {:induction false} KeysInStep(g: Grid, s: Screen, ls: Lines, b: nat, k: Keys, es: seq<Event>)
    requires InStep(g, s, ls, b, k) && AllComfortable(g, k, es)
    ensures Accepted(k, es)
    ensures exists out, c :: InStep(g, ScreenAfterAll(g, s, k, es), out, c, AfterAll(k, es))
    decreases |es|
  {
    if es == [] {
      assert InStep(g, ScreenAfterAll(g, s, k, es), ls, b, AfterAll(k, es));
    } else {
      EventInStep(g, s, ls, b, k, es[0]);
      var t, next := ScreenAfter(g, s, k, es[0]), After(k, es[0]);
      KeysInStep(g, t, LinesAfter(g, ls, k, es[0]), PromptLine(g, ls, b, k, es[0]), next, es[1..]);
      var out, c :| InStep(g, ScreenAfterAll(g, t, next, es[1..]), out, c, AfterAll(next, es[1..]));
      assert InStep(g, ScreenAfterAll(g, s, k, es), out, c, AfterAll(k, es));
    }
  }
}
