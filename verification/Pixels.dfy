// The pixel memory of the framebuffer: grid geometry, glyph sampling, and when a
// picture shows a grid of cells.
module Pixels {
  import opened Words
  import opened Bits
  import opened Terminal

  // ------------------------------------------------------------------- geometry

  // fb_init's choice of glyph size, columns and rows.
  function GlyphWidth(width: nat): (w: nat)
    ensures w >= 8
  {
    if width / 96 < 8 then 8 else width / 96
  }

  // x / d; a name keeps non-linear terms out of proofs that do not need them.
  function Quot(x: nat, d: nat): nat
    requires d > 0
  {
    x / d
  }

  function Times(x: nat, y: nat): nat {
    x * y
  }

  function Columns(width: nat): nat {
    Quot(width, GlyphWidth(width))
  }

  function Rows(width: nat, height: nat): nat {
    Quot(height, 2 * GlyphWidth(width))
  }

  lemma QuotientBelow(x: nat, p: nat, q: nat)
    requires p > 0 && x < q * p
    ensures Quot(x, p) < q
  {
    var d := x / p - q;
    assert x == x / p * p + x % p;
    assert d >= 0 ==> (d + q) * p == d * p + q * p && d * p >= 0;
  }

  lemma WidthBound(width: nat)
    ensures width < 108 * GlyphWidth(width)
  {
  }

  // screen_buf is always wide enough, and on a landscape or square screen tall enough.
  lemma GridFits(width: nat, height: nat)
    ensures Columns(width) <= 107
    ensures height <= width ==> Rows(width, height) <= 53
  {
    var w := GlyphWidth(width);
    WidthBound(width);
    QuotientBelow(width, w, 108);
    if height <= width {
      assert 54 * (2 * w) == 108 * w;
      QuotientBelow(height, 2 * w, 54);
    }
  }

  // The glyph is the 96th part of the width, 8 pixels at least; columns and rows are as
  // many as fit, 96 columns at least from 768 pixels on.
  lemma GridIs(width: nat, height: nat)
    ensures var w := GlyphWidth(width); w >= 8 && width < 96 * (w + 1) && (w > 8 ==> 96 * w <= width)
    ensures Columns(width) * GlyphWidth(width) <= width < (Columns(width) + 1) * GlyphWidth(width)
    ensures var h := 2 * GlyphWidth(width);
            Rows(width, height) * h <= height < (Rows(width, height) + 1) * h
    ensures width >= 768 ==> Columns(width) >= 96
  {
    var w := GlyphWidth(width);
    QuotBounds(width, w);
    QuotBounds(height, 2 * w);
    if width >= 768 && Columns(width) < 96 { MulStep(Columns(width), 96, w); }
  }

  lemma QuotBounds(x: nat, d: nat)
    requires d > 0
    ensures Quot(x, d) * d <= x < (Quot(x, d) + 1) * d
  {
    assert x == x / d * d + x % d;
  }

  // A mode the terminal supports: 32 bits a pixel, `stride` words a scan line.
  datatype Mode = Mode(width: nat, height: nat, stride: nat) {
    function GlyphW(): nat { GlyphWidth(width) }

    function GlyphH(): nat { 2 * GlyphWidth(width) }

    function TheGrid(): Grid { Grid(Columns(width), Rows(width, height)) }

    predicate Good() {
      width <= stride && TheGrid().cols >= 1 && TheGrid().rows >= 1
    }
  }

  lemma GridInside(v: Mode)
    requires v.Good()
    ensures v.TheGrid().Good()
    ensures v.TheGrid().cols * v.GlyphW() <= v.width && v.TheGrid().rows * v.GlyphH() <= v.height
  {
    GridFits(v.width, v.height);
    QuotTimes(v.width, v.GlyphW());
    QuotTimes(v.height, v.GlyphH());
  }

  lemma QuotTimes(x: nat, d: nat)
    requires d > 0
    ensures Quot(x, d) * d <= x
  {
    assert x == x / d * d + x % d;
  }

  lemma CellInside(v: Mode, row: nat, col: nat)
    requires v.Good() && row < v.TheGrid().rows && col < v.TheGrid().cols
    ensures col * v.GlyphW() + v.GlyphW() <= v.width && row * v.GlyphH() + v.GlyphH() <= v.height
  {
    GridInside(v);
    MulStep(col, v.TheGrid().cols, v.GlyphW());
    MulStep(row, v.TheGrid().rows, v.GlyphH());
  }

  // The pixel (dy, dx) of a cell, on the screen.
  function PixelX(v: Mode, col: nat, dx: nat): nat {
    col * v.GlyphW() + dx
  }

  function PixelY(v: Mode, row: nat, dy: nat): nat {
    row * v.GlyphH() + dy
  }

  lemma PixelInside(v: Mode, row: nat, col: nat, dy: nat, dx: nat)
    requires v.Good() && row < v.TheGrid().rows && col < v.TheGrid().cols && dy < v.GlyphH() && dx < v.GlyphW()
    ensures PixelX(v, col, dx) < v.stride && PixelY(v, row, dy) < v.height
  {
    CellInside(v, row, col);
  }

  lemma MulStep(i: nat, n: nat, p: nat)
    requires i < n
    ensures i * p + p <= n * p
  {
    var d := n - (i + 1);
    assert n * p == (i + 1) * p + d * p;
  }

  // ------------------------------------------------------------------- sampling

  type Font = f: seq<Byte> | |f| == 4096 witness seq(4096, _ => 0)

  function SampleX(dx: nat, w: nat): nat
    requires w > 0
  {
    Quot(dx * 8, w)
  }

  function SampleY(dy: nat, h: nat): nat
    requires h > 0
  {
    Quot(dy * 16, h)
  }

  lemma SampleInside(d: nat, p: nat, n: nat)
    requires d < p && n > 0
    ensures Quot(d * n, p) < n
  {
    MulStep(d, p, n);
    assert p * n == n * p;
    QuotientBelow(d * n, p, n);
  }

  // Scaling up by nearest neighbour reaches every source position.
  lemma SampleOnto(s: nat, p: nat, n: nat) returns (d: nat)
    requires s < n <= p
    ensures d < p && Quot(d * n, p) == s
  {
    d := Quot(s * p + (n - 1), n);
    var r := (s * p + (n - 1)) % n;
    assert d * n == s * p + (n - 1 - r);
    DivModUnique(d * n, p, s, n - 1 - r);
    MulStep(s, n, p);
    BelowByProduct(d, p, n);
  }

  lemma BelowByProduct(d: nat, p: nat, n: nat)
    requires d * n < n * p
    ensures d < p
  {
    var e := d - p;
    assert e * n == d * n - n * p;
    assert e >= 0 ==> e * n >= 0;
  }

  // Every source column and row of a glyph appears in its cell.
  lemma GlyphsAreWhole(width: nat, sx: nat, sy: nat)
    requires sx < 8 && sy < 16
    ensures exists dx, dy :: 0 <= dx < GlyphWidth(width) && 0 <= dy < 2 * GlyphWidth(width) &&
              SampleX(dx, GlyphWidth(width)) == sx && SampleY(dy, 2 * GlyphWidth(width)) == sy
  {
    var dx := SampleOnto(sx, GlyphWidth(width), 8);
    var dy := SampleOnto(sy, 2 * GlyphWidth(width), 16);
    assert SampleX(dx, GlyphWidth(width)) == sx && SampleY(dy, 2 * GlyphWidth(width)) == sy;
  }

  // bits & (0x80 >> sx)
  predicate FontBit(bits: Byte, sx: nat)
    requires sx < 8
  {
    And(bits, Pow2(7 - sx)) != 0
  }

  // The font row that scan line dy of a cell samples.
  function GlyphRow(font: Font, v: Mode, c: Byte, dy: nat): Byte
    requires dy < v.GlyphH()
  {
    SampleInside(dy, v.GlyphH(), 16);
    font[c * 16 + SampleY(dy, v.GlyphH())]
  }

  function GlyphColor(v: Mode, bits: Byte, dx: nat, fg: nat, bg: nat): (color: nat)
    requires dx < v.GlyphW()
    ensures color == fg || color == bg
  {
    SampleInside(dx, v.GlyphW(), 8);
    if FontBit(bits, SampleX(dx, v.GlyphW())) then fg else bg
  }

  // The pixel at (dy, dx) of a cell.
  function CellPixel(font: Font, v: Mode, cell: Cell, dy: nat, dx: nat): nat
    requires dy < v.GlyphH() && dx < v.GlyphW()
  {
    match cell
    case Fill(color) => color
    case Glyph(c, fg, bg) => GlyphColor(v, GlyphRow(font, v, c, dy), dx, fg, bg)
  }

  // The font's bits: of glyph c row dy * 16 / glyph_h from the top, and of its eight bits
  // number dx * 8 / glyph_w from the highest down.
  predicate FontShows(font: Font, v: Mode, c: Byte, fg: nat, bg: nat, dy: nat, dx: nat, color: nat) {
    var sy, sx := Quot(dy * 16, v.GlyphH()), Quot(dx * 8, v.GlyphW());
    sy < 16 && sx < 8 && color == if font[c * 16 + sy] / Pow2(7 - sx) % 2 == 1 then fg else bg
  }

  // A glyph's pixel, read off the font.
  lemma GlyphPixel(font: Font, v: Mode, c: Byte, fg: nat, bg: nat, dy: nat, dx: nat)
    requires dy < v.GlyphH() && dx < v.GlyphW()
    ensures FontShows(font, v, c, fg, bg, dy, dx, CellPixel(font, v, Glyph(c, fg, bg), dy, dx))
    ensures var sy, sx := Quot(dy * 16, v.GlyphH()), Quot(dx * 8, v.GlyphW());
            sy < 16 && sx < 8 &&
            CellPixel(font, v, Glyph(c, fg, bg), dy, dx) ==
            if font[c * 16 + sy] / Pow2(7 - sx) % 2 == 1 then fg else bg
  {
    SampleInside(dy, v.GlyphH(), 16);
    SampleInside(dx, v.GlyphW(), 8);
    var sx := SampleX(dx, v.GlyphW());
    TestBit(GlyphRow(font, v, c, dy), 7 - sx);
    BitIsParity(GlyphRow(font, v, c, dy), 7 - sx);
  }

  // ------------------------------------------------------------------ scan lines

  type Raster = seq<seq<nat>>

  lemma LineInside(v: Mode, y: nat)
    requires y < v.height
    ensures y * v.stride + v.stride <= v.height * v.stride
  {
    MulStep(y, v.height, v.stride);
  }

  function LineOf(v: Mode, m: seq<nat>, y: nat): (line: seq<nat>)
    requires |m| == v.height * v.stride && y < v.height
    ensures |line| == v.stride
  {
    LineInside(v, y);
    m[y * v.stride..y * v.stride + v.stride]
  }

  function Lines(v: Mode, m: seq<nat>): (r: Raster)
    requires |m| == v.height * v.stride
    ensures Rect(r, v.height, v.stride)
    ensures forall y :: 0 <= y < v.height ==> r[y] == LineOf(v, m, y)
  {
    seq(v.height, y requires 0 <= y < v.height => LineOf(v, m, y))
  }

  function Index(v: Mode, y: nat, x: nat): nat {
    y * v.stride + x
  }

  lemma LinesAt(v: Mode, m: seq<nat>, y: nat, x: nat)
    requires |m| == v.height * v.stride && y < v.height && x < v.stride
    ensures Index(v, y, x) < |m| && Lines(v, m)[y][x] == m[Index(v, y, x)]
  {
    LineInside(v, y);
    assert Lines(v, m)[y] == LineOf(v, m, y);
  }

  // Pixel x of scan line y is word y * stride + x of the framebuffer.
  lemma PixelWord(v: Mode, m: seq<nat>, y: nat, x: nat)
    requires |m| == v.height * v.stride && y < v.height && x < v.stride
    ensures y * v.stride + x < |m| && Lines(v, m)[y][x] == m[y * v.stride + x]
  {
    LinesAt(v, m, y, x);
  }

  lemma SameIndex(stride: nat, y: nat, x: nat, y': nat, x': nat)
    requires x < stride && x' < stride && y * stride + x == y' * stride + x'
    ensures y == y' && x == x'
  {
    DivModUnique(y * stride + x, stride, y, x);
    DivModUnique(y' * stride + x', stride, y', x');
  }

  lemma IndexInjective(v: Mode, y: nat, x: nat, b: nat, a: nat)
    requires x < v.stride && a < v.stride && Index(v, y, x) == Index(v, b, a)
    ensures y == b && x == a
  {
    SameIndex(v.stride, y, x, b, a);
  }

  lemma StoredWord(v: Mode, m: seq<nat>, r: seq<nat>, y: nat, x: nat, value: nat, b: nat, a: nat)
    requires |m| == v.height * v.stride && y < v.height && x < v.stride && b < v.height && a < v.stride
    requires Index(v, y, x) < |m| && r == m[Index(v, y, x) := value]
    ensures Lines(v, r)[b][a] == if b == y && a == x then value else Lines(v, m)[b][a]
  {
    LinesAt(v, m, b, a);
    LinesAt(v, r, b, a);
    assert Lines(v, r)[b][a] == r[Index(v, b, a)];
    if Index(v, y, x) == Index(v, b, a) { IndexInjective(v, y, x, b, a); }
  }

  // Storing a word changes one pixel.
  lemma StorePixel(v: Mode, m: seq<nat>, y: nat, x: nat, value: nat)
    requires |m| == v.height * v.stride && y < v.height && x < v.stride
    ensures Index(v, y, x) < |m|
    ensures Lines(v, m[Index(v, y, x) := value]) == Put(Lines(v, m), y, x, value)
  {
    LinesAt(v, m, y, x);
    var r := m[Index(v, y, x) := value];
    var p, q := Lines(v, r), Put(Lines(v, m), y, x, value);
    forall b, a | 0 <= b < v.height && 0 <= a < v.stride ensures p[b][a] == q[b][a] {
      StoredWord(v, m, r, y, x, value, b, a);
    }
    SameGrid(p, q, v.height, v.stride);
  }

  // --------------------------------------------------------------- cells and pixels

  function PixelOf(v: Mode, p: Raster, r: nat, c: nat, dy: nat, dx: nat): nat
    requires v.Good() && Rect(p, v.height, v.stride)
    requires r < v.TheGrid().rows && c < v.TheGrid().cols && dy < v.GlyphH() && dx < v.GlyphW()
  {
    CellInside(v, r, c);
    p[r * v.GlyphH() + dy][c * v.GlyphW() + dx]
  }

  ghost predicate PixelShows(font: Font, v: Mode, p: Raster, cells: seq<seq<Cell>>, r: nat, c: nat, dy: nat, dx: nat)
    requires v.Good() && Rect(p, v.height, v.stride) && Rect(cells, v.TheGrid().rows, v.TheGrid().cols)
    requires r < v.TheGrid().rows && c < v.TheGrid().cols && dy < v.GlyphH() && dx < v.GlyphW()
  {
    PixelOf(v, p, r, c, dy, dx) == CellPixel(font, v, cells[r][c], dy, dx)
  }

  // Every pixel of the text grid is the one its cell calls for.
  ghost predicate Pictures(font: Font, v: Mode, p: Raster, cells: seq<seq<Cell>>) {
    v.Good() && Rect(p, v.height, v.stride) && Rect(cells, v.TheGrid().rows, v.TheGrid().cols) &&
    forall r, c, dy, dx :: 0 <= r < v.TheGrid().rows && 0 <= c < v.TheGrid().cols &&
                           0 <= dy < v.GlyphH() && 0 <= dx < v.GlyphW() ==>
                             PixelShows(font, v, p, cells, r, c, dy, dx)
  }

  predicate InCell(v: Mode, row: nat, col: nat, y: nat, x: nat) {
    row * v.GlyphH() <= y < row * v.GlyphH() + v.GlyphH() && col * v.GlyphW() <= x < col * v.GlyphW() + v.GlyphW()
  }

  // Exactly the pixels of one cell are repainted.
  ghost predicate CellPainted(font: Font, v: Mode, p: Raster, q: Raster, row: nat, col: nat, cell: Cell) {
    Rect(p, v.height, v.stride) && Rect(q, v.height, v.stride) &&
    forall y, x :: 0 <= y < v.height && 0 <= x < v.stride ==>
      q[y][x] == if InCell(v, row, col, y, x)
                 then CellPixel(font, v, cell, y - row * v.GlyphH(), x - col * v.GlyphW()) else p[y][x]
  }

  // What is seen after a glyph was painted: its cell shows the font's bits in the two
  // colours, every other pixel is as it was.
  lemma PaintedGlyph(font: Font, v: Mode, p: Raster, q: Raster, row: nat, col: nat, c: Byte, fg: nat, bg: nat)
    requires CellPainted(font, v, p, q, row, col, Glyph(c, fg, bg))
    ensures forall y, x :: 0 <= y < v.height && 0 <= x < v.stride ==>
              if 0 <= y - row * v.GlyphH() < v.GlyphH() && 0 <= x - col * v.GlyphW() < v.GlyphW()
              then FontShows(font, v, c, fg, bg, y - row * v.GlyphH(), x - col * v.GlyphW(), q[y][x])
              else q[y][x] == p[y][x]
  {
    forall y, x | 0 <= y < v.height && 0 <= x < v.stride &&
                  0 <= y - row * v.GlyphH() < v.GlyphH() && 0 <= x - col * v.GlyphW() < v.GlyphW()
      ensures FontShows(font, v, c, fg, bg, y - row * v.GlyphH(), x - col * v.GlyphW(), q[y][x])
    {
      GlyphPixel(font, v, c, fg, bg, y - row * v.GlyphH(), x - col * v.GlyphW());
    }
  }

  // The same for one colour.
  lemma PaintedFill(font: Font, v: Mode, p: Raster, q: Raster, row: nat, col: nat, color: nat)
    requires CellPainted(font, v, p, q, row, col, Fill(color))
    ensures forall y, x :: 0 <= y < v.height && 0 <= x < v.stride ==>
              q[y][x] == if 0 <= y - row * v.GlyphH() < v.GlyphH() && 0 <= x - col * v.GlyphW() < v.GlyphW()
                         then color else p[y][x]
  {
  }

  lemma CellsApart(v: Mode, row: nat, col: nat, r: nat, c: nat, dy: nat, dx: nat)
    requires dy < v.GlyphH() && dx < v.GlyphW() && InCell(v, row, col, r * v.GlyphH() + dy, c * v.GlyphW() + dx)
    ensures r == row && c == col
  {
    if r < row { MulStep(r, row, v.GlyphH()); } else if row < r { MulStep(row, r, v.GlyphH()); }
    if c < col { MulStep(c, col, v.GlyphW()); } else if col < c { MulStep(col, c, v.GlyphW()); }
  }

  lemma PaintedPictures(font: Font, v: Mode, p: Raster, q: Raster, cells: seq<seq<Cell>>,
                        row: nat, col: nat, cell: Cell)
    requires Pictures(font, v, p, cells) && CellPainted(font, v, p, q, row, col, cell)
    requires row < v.TheGrid().rows && col < v.TheGrid().cols
    ensures Pictures(font, v, q, Put(cells, row, col, cell))
  {
    forall r, c, dy, dx | 0 <= r < v.TheGrid().rows && 0 <= c < v.TheGrid().cols &&
                          0 <= dy < v.GlyphH() && 0 <= dx < v.GlyphW()
      ensures PixelShows(font, v, q, Put(cells, row, col, cell), r, c, dy, dx)
    {
      PaintedPixel(font, v, p, q, cells, row, col, cell, r, c, dy, dx);
    }
  }

  lemma PaintedPixel(font: Font, v: Mode, p: Raster, q: Raster, cells: seq<seq<Cell>>, row: nat, col: nat, cell: Cell,
                     r: nat, c: nat, dy: nat, dx: nat)
    requires Pictures(font, v, p, cells) && CellPainted(font, v, p, q, row, col, cell)
    requires row < v.TheGrid().rows && col < v.TheGrid().cols && r < v.TheGrid().rows && c < v.TheGrid().cols
    requires dy < v.GlyphH() && dx < v.GlyphW()
    ensures PixelShows(font, v, q, Put(cells, row, col, cell), r, c, dy, dx)
  {
    CellInside(v, r, c);
    assert PixelShows(font, v, p, cells, r, c, dy, dx);
    if InCell(v, row, col, r * v.GlyphH() + dy, c * v.GlyphW() + dx) {
      CellsApart(v, row, col, r, c, dy, dx);
    }
  }

  // Scan lines moved up by one glyph height, the last text row black.
  ghost predicate Scrolled(v: Mode, p: Raster, q: Raster) {
    Rect(p, v.height, v.stride) && Rect(q, v.height, v.stride) && v.TheGrid().rows * v.GlyphH() <= v.height &&
    forall y, x :: 0 <= y < v.height && 0 <= x < v.stride ==>
      q[y][x] == if y + v.GlyphH() < v.TheGrid().rows * v.GlyphH() then p[y + v.GlyphH()][x]
                 else if y < v.TheGrid().rows * v.GlyphH() then 0 else p[y][x]
  }

  lemma ScrolledPictures(font: Font, v: Mode, p: Raster, q: Raster, cells: seq<seq<Cell>>)
    requires Pictures(font, v, p, cells) && Scrolled(v, p, q)
    ensures Pictures(font, v, q, ShiftUp(cells, v.TheGrid().cols, Fill(BLACK)))
  {
    var out := ShiftUp(cells, v.TheGrid().cols, Fill(BLACK));
    forall r, c, dy, dx | 0 <= r < v.TheGrid().rows && 0 <= c < v.TheGrid().cols &&
                          0 <= dy < v.GlyphH() && 0 <= dx < v.GlyphW()
      ensures PixelShows(font, v, q, out, r, c, dy, dx)
    {
      ScrolledPixel(font, v, p, q, cells, r, c, dy, dx);
    }
  }

  lemma ScrolledPixel(font: Font, v: Mode, p: Raster, q: Raster, cells: seq<seq<Cell>>,
                      r: nat, c: nat, dy: nat, dx: nat)
    requires Pictures(font, v, p, cells) && Scrolled(v, p, q)
    requires r < v.TheGrid().rows && c < v.TheGrid().cols && dy < v.GlyphH() && dx < v.GlyphW()
    ensures PixelShows(font, v, q, ShiftUp(cells, v.TheGrid().cols, Fill(BLACK)), r, c, dy, dx)
  {
    var rows, h := v.TheGrid().rows, v.GlyphH();
    CellInside(v, r, c);
    assert (r + 1) * h == r * h + h;
    if r + 1 < rows {
      MulStep(r + 1, rows, h);
      CellInside(v, r + 1, c);
      assert PixelShows(font, v, p, cells, r + 1, c, dy, dx);
    }
  }

  // ------------------------------------------------------- loops over one cell

  lemma LowByte(x: nat)
    ensures And(x, 0xFF) == x % 0x100
  {
    Pow2Values();
    AndOnes(x, 8);
  }

  // (color >> 16) & 0xFF, (color >> 8) & 0xFF and color & 0xFF
  function Red(color: nat): Byte {
    LowByte(color / 0x1_0000);
    And(color / 0x1_0000, 0xFF)
  }

  function Green(color: nat): Byte {
    LowByte(color / 0x100);
    And(color / 0x100, 0xFF)
  }

  function Blue(color: nat): Byte {
    LowByte(color);
    And(color, 0xFF)
  }

  // (r << 16) | (g << 8) | b
  function Rgb(r: Byte, g: Byte, b: Byte): nat {
    Or(Or(r * 0x1_0000, g * 0x100), b)
  }

  lemma RgbSum(r: Byte, g: Byte, b: Byte)
    ensures Rgb(r, g, b) == r * 0x1_0000 + g * 0x100 + b
  {
    OrShifted(r, g * 0x100, 0x1_0000, 16);
    OrShifted(r * 0x100 + g, b, 0x100, 8);
  }

  // (x << k) | y for y below 1 << k
  lemma OrShifted(x: nat, y: nat, p: nat, k: nat)
    requires y < p && ((k == 8 && p == 0x100) || (k == 16 && p == 0x1_0000))
    ensures Or(x * p, y) == x * p + y
  {
    Pow2Values();
    assert Pow2(16) == 0x1_0000;
    MultipleMod(x, p);
    OrAligned(x * p, y, k);
  }

  lemma TopByte(color: nat)
    requires color < COLORS
    ensures color / 0x1_0000 < 0x100 && color / 0x1_0000 % 0x100 == color / 0x1_0000
  {
    DivModUnique(color / 0x1_0000, 0x100, 0, color / 0x1_0000);
  }

  lemma Channels(color: nat)
    requires color < COLORS
    ensures Red(color) == color / 0x1_0000 && Green(color) == color / 0x100 % 0x100 && Blue(color) == color % 0x100
  {
    TopByte(color);
    LowByte(color / 0x1_0000);
    LowByte(color / 0x100);
    LowByte(color);
  }

  lemma ChannelSum(color: nat)
    ensures color / 0x1_0000 * 0x1_0000 + color / 0x100 % 0x100 * 0x100 + color % 0x100 == color
  {
    var upper := color / 0x100;
    DivModUnique(color, 0x1_0000, upper / 0x100, upper % 0x100 * 0x100 + color % 0x100);
  }

  // Packing the channels of a 24-bit colour gives it back.
  lemma RgbOf(color: nat)
    requires color < COLORS
    ensures Rgb(Red(color), Green(color), Blue(color)) == color
  {
    Channels(color);
    ChannelSum(color);
    RgbSum(Red(color), Green(color), Blue(color));
  }

  predicate Before(dy: int, dx: int, sy: nat, sx: nat) {
    dy < sy || (dy == sy && dx < sx)
  }

  // The pixels of the cell that come before (sy, sx) are painted.
  ghost predicate PartPainted(font: Font, v: Mode, p: Raster, q: Raster, row: nat, col: nat, cell: Cell,
                              sy: nat, sx: nat)
  {
    Rect(p, v.height, v.stride) && Rect(q, v.height, v.stride) &&
    forall y, x :: 0 <= y < v.height && 0 <= x < v.stride ==>
      q[y][x] == if InCell(v, row, col, y, x) && Before(y - row * v.GlyphH(), x - col * v.GlyphW(), sy, sx)
                 then CellPixel(font, v, cell, y - row * v.GlyphH(), x - col * v.GlyphW()) else p[y][x]
  }

  lemma PartStart(font: Font, v: Mode, p: Raster, row: nat, col: nat, cell: Cell)
    requires Rect(p, v.height, v.stride)
    ensures PartPainted(font, v, p, p, row, col, cell, 0, 0)
  {
  }

  lemma PartStep(font: Font, v: Mode, p: Raster, q: Raster, r: Raster, row: nat, col: nat, cell: Cell, sy: nat, sx: nat)
    requires PartPainted(font, v, p, q, row, col, cell, sy, sx) && sy < v.GlyphH() && sx < v.GlyphW()
    requires PixelY(v, row, sy) < v.height && PixelX(v, col, sx) < v.stride
    requires r == Put(q, PixelY(v, row, sy), PixelX(v, col, sx), CellPixel(font, v, cell, sy, sx))
    ensures PartPainted(font, v, p, r, row, col, cell, sy, sx + 1)
  {
  }

  lemma PartRow(font: Font, v: Mode, p: Raster, q: Raster, row: nat, col: nat, cell: Cell, sy: nat)
    requires PartPainted(font, v, p, q, row, col, cell, sy, v.GlyphW())
    ensures PartPainted(font, v, p, q, row, col, cell, sy + 1, 0)
  {
  }

  lemma PartDone(font: Font, v: Mode, p: Raster, q: Raster, row: nat, col: nat, cell: Cell)
    requires PartPainted(font, v, p, q, row, col, cell, v.GlyphH(), 0)
    ensures CellPainted(font, v, p, q, row, col, cell)
  {
  }

  // --------------------------------------------------------- fb_scroll's word copy

  function RowWords(v: Mode): nat {
    v.GlyphH() * v.stride
  }

  function GridWords(v: Mode): nat {
    v.TheGrid().rows * v.GlyphH() * v.stride
  }

  // The first `limit` words shifted down by `shift`, zeros following.
  ghost predicate Moved(m: seq<nat>, r: seq<nat>, shift: nat, limit: nat) {
    shift <= limit <= |m| && |m| == |r| &&
    forall k :: 0 <= k < |m| ==> r[k] == if k + shift < limit then m[k + shift] else if k < limit then 0 else m[k]
  }

  ghost predicate WordsMoved(v: Mode, m: seq<nat>, r: seq<nat>) {
    |m| == v.height * v.stride && Moved(m, r, RowWords(v), GridWords(v))
  }

  lemma LineOrder(v: Mode, y: nat, x: nat, t: nat)
    requires x < v.stride
    ensures Index(v, y, x) < t * v.stride <==> y < t
  {
    if y < t { MulStep(y, t, v.stride); } else { assert y * v.stride == t * v.stride + (y - t) * v.stride; }
  }

  function GridLines(v: Mode): nat {
    v.TheGrid().rows * v.GlyphH()
  }

  lemma MovedIndex(v: Mode, y: nat, x: nat)
    requires x < v.stride
    ensures Index(v, y + v.GlyphH(), x) == Index(v, y, x) + RowWords(v)
    ensures Index(v, y, x) + RowWords(v) < GridWords(v) <==> y + v.GlyphH() < GridLines(v)
    ensures Index(v, y, x) < GridWords(v) <==> y < GridLines(v)
  {
    assert (y + v.GlyphH()) * v.stride == y * v.stride + v.GlyphH() * v.stride;
    LineOrder(v, y, x, GridLines(v));
    LineOrder(v, y + v.GlyphH(), x, GridLines(v));
  }

  lemma WordsMovedScrolls(v: Mode, m: seq<nat>, r: seq<nat>)
    requires v.Good() && WordsMoved(v, m, r)
    ensures Scrolled(v, Lines(v, m), Lines(v, r))
  {
    GridInside(v);
    forall y, x | 0 <= y < v.height && 0 <= x < v.stride
      ensures Lines(v, r)[y][x] == if y + v.GlyphH() < GridLines(v) then Lines(v, m)[y + v.GlyphH()][x]
                                   else if y < GridLines(v) then 0 else Lines(v, m)[y][x]
    {
      MovedWord(v, m, r, y, x);
    }
  }

  lemma MovedWord(v: Mode, m: seq<nat>, r: seq<nat>, y: nat, x: nat)
    requires WordsMoved(v, m, r) && y < v.height && x < v.stride && GridLines(v) <= v.height
    ensures Lines(v, r)[y][x] == if y + v.GlyphH() < GridLines(v) then Lines(v, m)[y + v.GlyphH()][x]
                                 else if y < GridLines(v) then 0 else Lines(v, m)[y][x]
  {
    var k := Index(v, y, x);
    LinesAt(v, m, y, x);
    LinesAt(v, r, y, x);
    MovedIndex(v, y, x);
    if y + v.GlyphH() < GridLines(v) {
      LinesAt(v, m, y + v.GlyphH(), x);
      MovedFrom(v, m, r, k);
    } else {
      MovedFrom(v, m, r, k);
    }
  }

  lemma MovedFrom(v: Mode, m: seq<nat>, r: seq<nat>, k: nat)
    requires WordsMoved(v, m, r) && k < |m|
    ensures r[k] == if k + RowWords(v) < GridWords(v) then m[k + RowWords(v)]
                    else if k < GridWords(v) then 0 else m[k]
  {
  }

  // Bytes and quadwords in one text row, and quadwords in all rows but the last.
  function RowBytes(v: Mode): nat {
    v.GlyphH() * (v.stride * 4)
  }

  function RowQuads(v: Mode): nat {
    RowBytes(v) / 8
  }

  function CopiedQuads(v: Mode): nat
    requires v.Good()
  {
    Quot(Times(v.TheGrid().rows - 1, RowBytes(v)), 8)
  }

  lemma EightTimes(n: nat)
    ensures 8 * n / 8 == n && 8 * n / 4 == 2 * n
  {
    DivModUnique(8 * n, 8, n, 0);
    DivModUnique(8 * n, 4, 2 * n, 0);
  }

  lemma EvenRow(v: Mode)
    ensures RowQuads(v) * 2 == RowWords(v) && RowBytes(v) / 4 == RowWords(v)
  {
    RowOfQuads(v);
    EightTimes(v.GlyphW() * v.stride);
  }

  lemma QuadProduct(rows: nat, n: nat)
    requires rows >= 1
    ensures (rows - 1) * (8 * n) / 8 == (rows - 1) * n
    ensures (rows - 1) * n * 2 + 2 * n == rows * (2 * n)
  {
    assert (rows - 1) * (8 * n) == 8 * ((rows - 1) * n);
  }

  lemma GridRowWords(v: Mode)
    ensures GridWords(v) == v.TheGrid().rows * RowWords(v)
  {
    assert v.TheGrid().rows * v.GlyphH() * v.stride == v.TheGrid().rows * (v.GlyphH() * v.stride);
  }

  lemma QuadCounts(v: Mode)
    requires v.Good()
    ensures 2 * CopiedQuads(v) + RowWords(v) == GridWords(v)
    ensures GridWords(v) <= v.height * v.stride
  {
    GridInside(v);
    RowOfQuads(v);
    QuadProduct(v.TheGrid().rows, v.GlyphW() * v.stride);
    GridRowWords(v);
    LinesWithin(v);
  }

  lemma RowOfQuads(v: Mode)
    ensures RowWords(v) == 2 * (v.GlyphW() * v.stride) && RowBytes(v) == 8 * (v.GlyphW() * v.stride)
  {
    Doubled(v.GlyphW(), v.stride);
  }

  lemma Doubled(w: nat, t: nat)
    ensures 2 * w * t == 2 * (w * t) && 2 * w * (t * 4) == 8 * (w * t)
  {
  }

  lemma LinesWithin(v: Mode)
    requires GridLines(v) <= v.height
    ensures GridWords(v) <= v.height * v.stride
  {
    assert v.height * v.stride == GridLines(v) * v.stride + (v.height - GridLines(v)) * v.stride;
  }

  // ------------------------------------------------------------------- fb_clear

  ghost predicate ClearedTo(v: Mode, p: Raster, q: Raster, color: nat, sy: nat, sx: nat) {
    Rect(p, v.height, v.stride) && Rect(q, v.height, v.stride) &&
    forall y, x :: 0 <= y < v.height && 0 <= x < v.stride ==>
      q[y][x] == if x < v.width && Before(y, x, sy, sx) then color else p[y][x]
  }

  lemma ClearedPixel(font: Font, v: Mode, p: Raster, q: Raster, color: nat, r: nat, c: nat, dy: nat, dx: nat)
    requires v.Good() && ClearedTo(v, p, q, color, v.height, 0)
    requires r < v.TheGrid().rows && c < v.TheGrid().cols && dy < v.GlyphH() && dx < v.GlyphW()
    ensures PixelShows(font, v, q, Uniform(v.TheGrid().rows, v.TheGrid().cols, Fill(color)), r, c, dy, dx)
  {
    CellInside(v, r, c);
  }

  lemma ClearedPictures(font: Font, v: Mode, p: Raster, q: Raster, color: nat)
    requires v.Good() && ClearedTo(v, p, q, color, v.height, 0)
    ensures Pictures(font, v, q, Uniform(v.TheGrid().rows, v.TheGrid().cols, Fill(color)))
  {
    var cells := Uniform(v.TheGrid().rows, v.TheGrid().cols, Fill(color));
    forall r, c, dy, dx | 0 <= r < v.TheGrid().rows && 0 <= c < v.TheGrid().cols &&
                          0 <= dy < v.GlyphH() && 0 <= dx < v.GlyphW()
      ensures PixelShows(font, v, q, cells, r, c, dy, dx)
    {
      ClearedPixel(font, v, p, q, color, r, c, dy, dx);
    }
  }

  lemma SameGrid<T>(p: seq<seq<T>>, q: seq<seq<T>>, rows: nat, cols: nat)
    requires Rect(p, rows, cols) && Rect(q, rows, cols)
    requires forall y, x :: 0 <= y < rows && 0 <= x < cols ==> p[y][x] == q[y][x]
    ensures p == q
  {
    forall y | 0 <= y < rows ensures p[y] == q[y] {
    }
  }
}
