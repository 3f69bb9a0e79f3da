// The framebuffer terminal of kernel/fb.c at the level of character cells: what each
// routine does to the picture, to screen_buf and to the cursor.
module Terminal {
  import opened Words

  const MAX_COLS: nat := 128
  const MAX_ROWS: nat := 64
  const COLORS: nat := 0x100_0000
  const WHITE: nat := 0xFF_FFFF
  const BLACK: nat := 0

  // fb_cols and fb_rows.
  datatype Grid = Grid(cols: nat, rows: nat) {
    predicate Good() {
      1 <= cols <= MAX_COLS && 1 <= rows
    }

    // The rows screen_buf keeps.
    function BufRows(): nat {
      if rows < MAX_ROWS then rows else MAX_ROWS
    }
  }

  // What a cell was last painted with: a glyph, or one colour all over.
  datatype Cell = Glyph(c: Byte, fg: nat, bg: nat) | Fill(color: nat)

  datatype Screen = Screen(cells: seq<seq<Cell>>, shadow: seq<seq<Byte>>, col: nat, row: nat, fg: nat, bg: nat)

  predicate Rect<T>(m: seq<seq<T>>, rows: nat, cols: nat) {
    |m| == rows && forall r :: 0 <= r < rows ==> |m[r]| == cols
  }

  predicate Framed(g: Grid, s: Screen) {
    g.Good() && Rect(s.cells, g.rows, g.cols) && Rect(s.shadow, g.BufRows(), g.cols) && s.col < g.cols
  }

  // A pending wrap leaves the cursor in column 0 of the row below the last one.
  predicate Shape(g: Grid, s: Screen) {
    Framed(g, s) && s.row <= g.rows && (s.row == g.rows ==> s.col == 0)
  }

  function Put<T>(m: seq<seq<T>>, r: nat, c: nat, v: T): (n: seq<seq<T>>)
    requires r < |m| && c < |m[r]|
    ensures |n| == |m| && forall i :: 0 <= i < |m| ==> |n[i]| == |m[i]|
    ensures forall i, j :: 0 <= i < |m| && 0 <= j < |m[i]| ==> n[i][j] == if i == r && j == c then v else m[i][j]
  {
    m[r := m[r][c := v]]
  }

  function Uniform<T>(rows: nat, cols: nat, v: T): seq<seq<T>> {
    seq(rows, _ => seq(cols, _ => v))
  }

  function ShiftUp<T>(m: seq<seq<T>>, cols: nat, v: T): (n: seq<seq<T>>)
    requires |m| > 0
    ensures |n| == |m| && n[|m| - 1] == seq(cols, _ => v)
    ensures forall i :: 0 <= i < |m| - 1 ==> n[i] == m[i + 1]
  {
    m[1..] + [seq(cols, _ => v)]
  }

  // ------------------------------------------------------------------ fb.c routines

  function FillCell(s: Screen, col: nat, row: nat, color: nat): Screen
    requires row < |s.cells| && col < |s.cells[row]|
  {
    s.(cells := Put(s.cells, row, col, Fill(color)))
  }

  function PaintCursor(g: Grid, s: Screen, color: nat): Screen
    requires Shape(g, s)
  {
    if s.col < g.cols && s.row < g.rows then FillCell(s, s.col, s.row, color) else s
  }

  function DrawCursor(g: Grid, s: Screen): Screen
    requires Shape(g, s)
  {
    PaintCursor(g, s, s.fg)
  }

  function EraseCursor(g: Grid, s: Screen): Screen
    requires Shape(g, s)
  {
    PaintCursor(g, s, s.bg)
  }

  function SetShadow(g: Grid, s: Screen, col: nat, row: nat, c: Byte): Screen
    requires Shape(g, s) && col < g.cols
  {
    if row < g.BufRows() then s.(shadow := Put(s.shadow, row, col, c)) else s
  }

  // fb_draw_char: in any two colours, and in the theme's.
  function DrawColored(g: Grid, s: Screen, col: nat, row: nat, c: Byte, fg: nat, bg: nat): (t: Screen)
    requires Shape(g, s) && col < g.cols && row < g.rows
    ensures Shape(g, t)
  {
    SetShadow(g, s.(cells := Put(s.cells, row, col, Glyph(c, fg, bg))), col, row, c)
  }

  function DrawChar(g: Grid, s: Screen, col: nat, row: nat, c: Byte): (t: Screen)
    requires Shape(g, s) && col < g.cols && row < g.rows
    ensures Shape(g, t)
  {
    DrawColored(g, s, col, row, c, s.fg, s.bg)
  }

  // The new bottom row is painted black whatever the theme.
  function Scroll(g: Grid, s: Screen): (t: Screen)
    requires Framed(g, s)
    ensures Shape(g, t)
  {
    s.(cells := ShiftUp(s.cells, g.cols, Fill(BLACK)), shadow := ShiftUp(s.shadow, g.cols, 0), row := g.rows - 1)
  }

  function ScrollIfBelow(g: Grid, s: Screen): (t: Screen)
    requires Framed(g, s)
    ensures Shape(g, t) && t.row < g.rows
  {
    if s.row >= g.rows then Scroll(g, s) else s
  }

  // One turn of the loop of fb_print_color.
  function PutChar(g: Grid, s: Screen, c: Byte): (t: Screen)
    requires Shape(g, s)
    ensures Shape(g, t)
  {
    var u := ScrollIfBelow(g, s);
    var v := DrawChar(g, u, u.col, u.row, c);
    if v.col + 1 >= g.cols then v.(col := 0, row := v.row + 1) else v.(col := v.col + 1)
  }

  function PutChars(g: Grid, s: Screen, text: seq<Byte>): (t: Screen)
    requires Shape(g, s)
    ensures Shape(g, t)
    decreases |text|
  {
    if text == [] then s else PutChars(g, PutChar(g, s, text[0]), text[1..])
  }

  // Printing leaves the theme alone.
  lemma {:induction false} PutCharsColors(g: Grid, s: Screen, text: seq<Byte>)
    requires Shape(g, s)
    ensures PutChars(g, s, text).fg == s.fg && PutChars(g, s, text).bg == s.bg
    decreases |text|
  {
    if text != [] { PutCharsColors(g, PutChar(g, s, text[0]), text[1..]); }
  }

  function Print(g: Grid, s: Screen, text: seq<Byte>): (t: Screen)
    requires Shape(g, s)
    ensures Shape(g, t)
  {
    DrawCursor(g, PutChars(g, EraseCursor(g, s), text))
  }

  // write_fb from (col, row): as much of the text as the row has room for.
  function WriteFb(g: Grid, s: Screen, col: nat, row: nat, text: seq<Byte>): (t: Screen)
    requires Shape(g, s) && row < g.rows
    ensures Shape(g, t) && t.col == s.col && t.row == s.row && t.fg == s.fg && t.bg == s.bg
    decreases |text|
  {
    if text == [] || col >= g.cols then s
    else WriteFb(g, DrawChar(g, s, col, row, text[0]), col + 1, row, text[1..])
  }

  function Println(g: Grid, s: Screen, text: seq<Byte>): (t: Screen)
    requires Shape(g, s)
    ensures Shape(g, t)
  {
    DrawCursor(g, WriteLine(g, EraseCursor(g, s), text))
  }

  // println between the two cursor paintings.
  function WriteLine(g: Grid, s: Screen, text: seq<Byte>): (t: Screen)
    requires Shape(g, s)
    ensures Shape(g, t) && t.fg == s.fg && t.bg == s.bg
  {
    var u := ScrollIfBelow(g, s);
    var w := WriteFb(g, u, u.col, u.row, text);
    ScrollIfBelow(g, w.(col := 0, row := w.row + 1))
  }

  function Backspace(g: Grid, s: Screen): (t: Screen)
    requires Shape(g, s)
    ensures Shape(g, t)
  {
    if s.col == 0 then s
    else
      var u := EraseCursor(g, s).(col := s.col - 1);
      DrawCursor(g, SetShadow(g, FillCell(u, u.col, u.row, u.bg), u.col, u.row, 0))
  }

  function Clear(g: Grid, s: Screen): (t: Screen)
    requires Shape(g, s)
    ensures Shape(g, t)
  {
    Screen(Uniform(g.rows, g.cols, Fill(s.bg)), Uniform(g.BufRows(), g.cols, 0), 0, 0, s.fg, s.bg)
  }

  // The cell redraw_screen paints from screen_buf.
  function Painted(g: Grid, s: Screen, r: nat, c: nat): Cell
    requires Framed(g, s) && c < g.cols
  {
    if r < g.BufRows() && s.shadow[r][c] != 0 then Glyph(s.shadow[r][c], s.fg, s.bg) else Fill(s.bg)
  }

  function PaintedCells(g: Grid, s: Screen): seq<seq<Cell>>
    requires Framed(g, s)
  {
    seq(g.rows, r requires 0 <= r => seq(g.cols, c requires 0 <= c < g.cols => Painted(g, s, r, c)))
  }

  function Redraw(g: Grid, s: Screen): (t: Screen)
    requires Shape(g, s)
    ensures Shape(g, t)
  {
    DrawCursor(g, s.(cells := PaintedCells(g, s)))
  }

  function UpdateTheme(g: Grid, s: Screen, fg: nat, bg: nat): (t: Screen)
    requires Shape(g, s)
    ensures Shape(g, t)
  {
    Redraw(g, s.(fg := fg, bg := bg))
  }

  // The display half of the Enter key: erase the cursor, fb_set_row(row + 1), fb_set_col(0).
  function Enter(g: Grid, s: Screen): (t: Screen)
    requires Shape(g, s)
    ensures Shape(g, t)
  {
    var u := EraseCursor(g, s);
    ScrollIfBelow(g, u.(row := u.row + 1)).(col := 0)
  }

  // ------------------------------------------------------------------------- runs

  datatype Op =
    | OpPrint(text: seq<Byte>)
    | OpPrintln(text: seq<Byte>)
    | OpBackspace
    | OpClear
    | OpTheme(fg: nat, bg: nat)
    | OpEnter
    | OpCursor(on: bool)     // the timer's fb_update_cursor

  // C strings hold no NUL, and themes are 24-bit colours.
  predicate Legal(op: Op) {
    match op
    case OpPrint(text) => 0 !in text
    case OpPrintln(text) => 0 !in text
    case OpTheme(fg, bg) => fg < COLORS && bg < COLORS
    case _ => true
  }

  function Step(g: Grid, s: Screen, op: Op): (t: Screen)
    requires Shape(g, s)
    ensures Shape(g, t)
  {
    match op
    case OpPrint(text) => Print(g, s, text)
    case OpPrintln(text) => Println(g, s, text)
    case OpBackspace => Backspace(g, s)
    case OpClear => Clear(g, s)
    case OpTheme(fg, bg) => UpdateTheme(g, s, fg, bg)
    case OpEnter => Enter(g, s)
    case OpCursor(on) => if on then DrawCursor(g, s) else EraseCursor(g, s)
  }

  function Run(g: Grid, s: Screen, ops: seq<Op>): (t: Screen)
    requires Shape(g, s)
    ensures Shape(g, t)
    decreases |ops|
  {
    if ops == [] then s else Run(g, Step(g, s, ops[0]), ops[1..])
  }

  // After fb_init and the fb_clear(FB_BLACK) of kernel_main.
  function Start(g: Grid): (s: Screen)
    requires g.Good()
    ensures Shape(g, s)
  {
    Screen(Uniform(g.rows, g.cols, Fill(BLACK)), Uniform(g.BufRows(), g.cols, 0), 0, 0, WHITE, BLACK)
  }
}
