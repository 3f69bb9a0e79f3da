// Agreement of picture and redraw, in pixels instead of cells.
module Looks {
  import opened Words
  import opened Terminal
  import opened Pixels
  import opened Agreement

  ghost predicate SameLook(font: Font, v: Mode, a: Cell, b: Cell) {
    forall dy, dx :: 0 <= dy < v.GlyphH() && 0 <= dx < v.GlyphW() ==>
      CellPixel(font, v, a, dy, dx) == CellPixel(font, v, b, dy, dx)
  }

  // Every cell but the cursor's looks as redraw_screen would paint it.
  ghost predicate LooksRight(font: Font, v: Mode, s: Screen)
    requires Framed(v.TheGrid(), s)
  {
    forall r, c :: 0 <= r < v.TheGrid().rows && 0 <= c < v.TheGrid().cols && !(r == s.row && c == s.col) ==>
      SameLook(font, v, s.cells[r][c], Painted(v.TheGrid(), s, r, c))
  }

  // Two rasters have the same pixels in a cell.
  ghost predicate SamePixels(v: Mode, p: Raster, q: Raster, r: nat, c: nat)
    requires v.Good() && Rect(p, v.height, v.stride) && Rect(q, v.height, v.stride)
    requires r < v.TheGrid().rows && c < v.TheGrid().cols
  {
    forall dy, dx :: 0 <= dy < v.GlyphH() && 0 <= dx < v.GlyphW() ==>
      PixelOf(v, p, r, c, dy, dx) == PixelOf(v, q, r, c, dy, dx)
  }

  lemma SamePixelsIff(font: Font, v: Mode, p: Raster, q: Raster, a: seq<seq<Cell>>, b: seq<seq<Cell>>, r: nat, c: nat)
    requires Pictures(font, v, p, a) && Pictures(font, v, q, b)
    requires r < v.TheGrid().rows && c < v.TheGrid().cols
    ensures SamePixels(v, p, q, r, c) <==> SameLook(font, v, a[r][c], b[r][c])
  {
    forall dy, dx | 0 <= dy < v.GlyphH() && 0 <= dx < v.GlyphW()
      ensures PixelOf(v, p, r, c, dy, dx) == PixelOf(v, q, r, c, dy, dx) <==>
              CellPixel(font, v, a[r][c], dy, dx) == CellPixel(font, v, b[r][c], dy, dx)
    {
      assert PixelShows(font, v, p, a, r, c, dy, dx) && PixelShows(font, v, q, b, r, c, dy, dx);
    }
  }

  // Where p shows a screen and q what redraw_screen makes of it, the pixels of the text
  // grid outside the cursor cell are the same exactly when the screen looks right.
  lemma PixelsAgreeIff(font: Font, v: Mode, p: Raster, q: Raster, s: Screen)
    requires v.Good() && Shape(v.TheGrid(), s)
    requires Pictures(font, v, p, s.cells) && Pictures(font, v, q, Redraw(v.TheGrid(), s).cells)
    ensures LooksRight(font, v, s) <==>
            forall r, c :: 0 <= r < v.TheGrid().rows && 0 <= c < v.TheGrid().cols && !(r == s.row && c == s.col) ==>
              SamePixels(v, p, q, r, c)
  {
    var painted := Redraw(v.TheGrid(), s).cells;
    forall r, c | 0 <= r < v.TheGrid().rows && 0 <= c < v.TheGrid().cols && !(r == s.row && c == s.col)
      ensures SamePixels(v, p, q, r, c) <==> SameLook(font, v, s.cells[r][c], Painted(v.TheGrid(), s, r, c))
    {
      SamePixelsIff(font, v, p, q, s.cells, painted, r, c);
    }
  }

  lemma AgreesLooksRight(font: Font, v: Mode, s: Screen)
    requires Framed(v.TheGrid(), s) && Agrees(v.TheGrid(), s)
    ensures LooksRight(font, v, s)
  {
    forall r, c | 0 <= r < v.TheGrid().rows && 0 <= c < v.TheGrid().cols && !(r == s.row && c == s.col)
      ensures SameLook(font, v, s.cells[r][c], Painted(v.TheGrid(), s, r, c))
    {
      assert AgreesAt(v.TheGrid(), s, r, c);
    }
  }

  // A black cell on a coloured background is seen, whatever the font.
  lemma BlackCellLooksWrong(font: Font, v: Mode, s: Screen)
    requires Framed(v.TheGrid(), s) && HasBlackCell(v.TheGrid(), s)
    ensures !LooksRight(font, v, s)
  {
    var r: nat, c: nat :| BlackCell(v.TheGrid(), s, r, c);
    FillsDiffer(font, v, BLACK, s.bg);
    assert !SameLook(font, v, s.cells[r][c], Painted(v.TheGrid(), s, r, c));
  }

  lemma FillsDiffer(font: Font, v: Mode, a: nat, b: nat)
    requires a != b
    ensures !SameLook(font, v, Fill(a), Fill(b))
  {
    assert CellPixel(font, v, Fill(a), 0, 0) != CellPixel(font, v, Fill(b), 0, 0);
  }

  // So the pixels stay right under a call exactly when the background is black or no
  // black cell is left behind.
  lemma StepLooksRightIff(font: Font, v: Mode, s: Screen, op: Op)
    requires Good(v.TheGrid(), s) && Legal(op)
    ensures LooksRight(font, v, Step(v.TheGrid(), s, op)) <==> s.bg == BLACK || !LeavesBlack(v.TheGrid(), s, op)
  {
    StepOutcome(v.TheGrid(), s, op);
    if s.bg != BLACK && LeavesBlack(v.TheGrid(), s, op) {
      BlackCellLooksWrong(font, v, Step(v.TheGrid(), s, op));
    } else {
      AgreesLooksRight(font, v, Step(v.TheGrid(), s, op));
    }
  }

  // --------------------------------------------------------------------- tall grids

  predicate HasInkAt(font: Font, c: Byte, sx: nat, sy: nat) {
    sx < 8 && sy < 16 && FontBit(font[c * 16 + sy], sx)
  }

  // The glyph of c has a set bit.
  predicate HasInk(font: Font, c: Byte) {
    exists sx, sy :: 0 <= sx < 8 && 0 <= sy < 16 && HasInkAt(font, c, sx, sy)
  }

  lemma InkIsSeen(font: Font, v: Mode, c: Byte, fg: nat, bg: nat)
    requires HasInk(font, c) && fg != bg
    ensures !SameLook(font, v, Glyph(c, fg, bg), Fill(bg))
  {
    var sx, sy :| 0 <= sx < 8 && 0 <= sy < 16 && HasInkAt(font, c, sx, sy);
    GlyphsAreWhole(v.width, sx, sy);
    var dx, dy :| 0 <= dx < v.GlyphW() && 0 <= dy < v.GlyphH() &&
                  SampleX(dx, v.GlyphW()) == sx && SampleY(dy, v.GlyphH()) == sy;
    assert CellPixel(font, v, Glyph(c, fg, bg), dy, dx) == fg;
    assert CellPixel(font, v, Fill(bg), dy, dx) == bg;
  }

  lemma TallGridLooksWrong(font: Font, v: Mode, n: nat, c: Byte)
    requires v.TheGrid().Good() && n == MAX_ROWS < v.TheGrid().rows && c != 0 && HasInk(font, c)
    ensures BlackRun(LowChar(n, c)) && !LooksRight(font, v, Run(v.TheGrid(), Start(v.TheGrid()), LowChar(n, c)))
  {
    TallGridCell(v.TheGrid(), n, c);
    InkIsSeen(font, v, c, WHITE, BLACK);
    var t := Run(v.TheGrid(), Start(v.TheGrid()), LowChar(n, c));
    assert !SameLook(font, v, t.cells[n][0], Painted(v.TheGrid(), t, n, 0));
  }

  // With a font in which some character is visible, all black runs from start-up look
  // right exactly when screen_buf covers every row of the grid.
  lemma AllRunsLookRightIff(font: Font, v: Mode, c: Byte)
    requires v.TheGrid().Good() && c != 0 && HasInk(font, c)
    ensures (forall ops :: BlackRun(ops) ==> LooksRight(font, v, Run(v.TheGrid(), Start(v.TheGrid()), ops))) <==>
            v.TheGrid().rows <= 64
  {
    var g := v.TheGrid();
    if g.rows <= MAX_ROWS {
      StartIsGood(g);
      forall ops | BlackRun(ops) ensures LooksRight(font, v, Run(g, Start(g), ops)) {
        RunsAgree(g, Start(g), ops);
        AgreesLooksRight(font, v, Run(g, Start(g), ops));
      }
    } else {
      TallGridLooksWrong(font, v, MAX_ROWS, c);
    }
  }
}
