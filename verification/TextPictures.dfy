/** simple_text.c: what printed strings look like. */
module TextPictures {
  import opened Memory
  import opened Raster
  import opened Overlays
  import opened FrameReader
  import opened Channels
  import opened SimpleText
  import opened TextLayout

  /** The layers of the cells as they would be drawn on one and the same view. */
  function LayersOn(font: Font, cells: seq<Cell>, view: Picture, stride: int, background: word): (layers: seq<Layer>)
    requires WellFormedFont(font) && AllInFrame(font, cells, stride, |view|)
    ensures |layers| == |cells|
    ensures forall m :: 0 <= m < |cells| ==> layers[m] == LayerOf(font, cells[m], view, stride, background)
  {
    seq(|cells|, m requires 0 <= m < |cells| => LayerOf(font, cells[m], view, stride, background))
  }

  // ----- opaque backgrounds -----

  /** On an opaque background a cell looks the same whatever it is drawn on. */
  lemma OpaqueLayer(font: Font, cell: Cell, view: Picture, other: Picture, stride: int, background: word)
    requires WellFormedFont(font) && CellInFrame(font, cell, stride, |view|) && |view| == |other|
    requires background != CLEAR_BACKGROUND
    ensures LayerOf(font, cell, view, stride, background) == LayerOf(font, cell, other, stride, background)
  {
    hide BlendedColor;
  }

  lemma {:induction false} OpaqueTextIsOverlay(font: Font, cells: seq<Cell>, view: Picture, base: Picture, stride: int,
                                               background: word)
    requires WellFormedFont(font) && AllInFrame(font, cells, stride, |view|) && |base| == |view|
    requires background != CLEAR_BACKGROUND
    ensures Rendered(font, cells, view, stride, background)
            == OverlayAll(view, LayersOn(font, cells, base, stride, background))
  {
    if cells != [] {
      var front, last := cells[..|cells| - 1], cells[|cells| - 1];
      OpaqueTextIsOverlay(font, front, view, base, stride, background);
      OpaqueLayer(font, last, Rendered(font, front, view, stride, background), base, stride, background);
      var layers := LayersOn(font, cells, base, stride, background);
      assert layers[..|layers| - 1] == LayersOn(font, front, base, stride, background);
    }
  }

  lemma RenderingTwice(font: Font, cells: seq<Cell>, view: Picture, stride: int, background: word)
    requires WellFormedFont(font) && AllInFrame(font, cells, stride, |view|)
    requires background != CLEAR_BACKGROUND
    ensures var once := Rendered(font, cells, view, stride, background);
            Rendered(font, cells, once, stride, background) == once
  {
    var once := Rendered(font, cells, view, stride, background);
    OpaqueTextIsOverlay(font, cells, view, view, stride, background);
    OpaqueTextIsOverlay(font, cells, once, view, stride, background);
    RepaintIsIdle(view, LayersOn(font, cells, view, stride, background));
  }

  /** Frames before, between and after two calls of `vid_print_string_alpha` with the same string on an opaque
      background: the second call shows nothing new, and both together have done what one call does. */
  lemma PrintingTwice(font: Font, cells: seq<Cell>, before: Picture, once: Picture, twice: Picture, stride: int,
                      background: word)
    requires WellFormedFont(font) && background != CLEAR_BACKGROUND
    requires Printed(once, before, font, cells, stride, background)
    requires Printed(twice, once, font, cells, stride, background)
    ensures Visible(twice) == Visible(once)
    ensures Printed(twice, before, font, cells, stride, background)
  {
    RenderingTwice(font, cells, Visible(before), stride, background);
  }

  method PrintStringTwice(display: VipFrameReader, horiz: int, vert: int, color: word, background: word, font: Font,
                          s: string)
    requires display.Valid() && display.colorDepth == 32 && WellFormedFont(font) && Printable(font, s)
    requires AllInFrame(font, Cells(font, s, |s|, horiz, vert, color, background), display.width,
                        display.GetDrawFrame().Length)
    requires background != CLEAR_BACKGROUND
    modifies display.GetDrawFrame()
    ensures display.Valid()
    ensures Printed(display.GetDrawFrame()[..], old(display.GetDrawFrame()[..]), font,
                    Cells(font, s, |s|, horiz, vert, color, background), display.width, background)
  {
    hide Printed, Cells, AllInFrame;
    ghost var before := display.GetDrawFrame()[..];
    PrintString(display, horiz, vert, color, background, font, s);
    ghost var once := display.GetDrawFrame()[..];
    PrintString(display, horiz, vert, color, background, font, s);
    PrintingTwice(font, Cells(font, s, |s|, horiz, vert, color, background), before, once, display.GetDrawFrame()[..],
                  display.width, background);
  }

  // ----- the cells of a string do not touch -----

  /** Cell `a` ends left of place (x, y) on the same line or, in a text broken into lines, stands on an earlier one. */
  predicate Precedes(font: Font, broken: bool, a: Cell, x: int, y: int)
    requires WellFormedFont(font) && HasGlyph(font, a.c)
  {
    (a.y == y && a.x + GlyphOf(font, a.c).width <= x) || (broken && a.y + GlyphOf(font, '|').height <= y)
  }

  ghost predicate AllPrecede(font: Font, broken: bool, cells: seq<Cell>, x: int, y: int)
    requires WellFormedFont(font) && forall m :: 0 <= m < |cells| ==> HasGlyph(font, cells[m].c)
  {
    forall m :: 0 <= m < |cells| ==> Precedes(font, broken, cells[m], x, y)
  }

  ghost predicate InOrder(font: Font, broken: bool, cells: seq<Cell>)
    requires WellFormedFont(font) && forall m :: 0 <= m < |cells| ==> HasGlyph(font, cells[m].c)
  {
    forall j, k :: 0 <= j < k < |cells| ==> Precedes(font, broken, cells[j], cells[k].x, cells[k].y)
  }

  lemma NewCells(font: Font, broken: bool, c: char, x: int, y: int, color: word, background: word)
    requires WellFormedFont(font) && CanPrint(font, c)
    ensures var cells := CharCells(font, c, x, y, color, background);
            && (forall k :: 0 <= k < |cells| ==> cells[k].y == y && x <= cells[k].x)
            && InOrder(font, broken, cells)
            && (if c == '\n' then cells == [] else AllPrecede(font, broken, cells, x + Advance(font, c), y))
  {
  }

  /** Cells put at a cursor that all earlier cells precede, on its line and right of it, keep the order. */
  lemma OrderGrows(font: Font, broken: bool, earlier: seq<Cell>, next: seq<Cell>, x: int, y: int, newX: int, newY: int)
    requires WellFormedFont(font)
    requires forall m :: 0 <= m < |earlier| ==> HasGlyph(font, earlier[m].c)
    requires forall m :: 0 <= m < |next| ==> HasGlyph(font, next[m].c) && next[m].y == y && x <= next[m].x
    requires AllPrecede(font, broken, earlier, x, y) && InOrder(font, broken, earlier)
    requires AllPrecede(font, broken, next, newX, newY) && InOrder(font, broken, next)
    requires (newY == y && x <= newX) || (broken && newY == y + GlyphOf(font, '|').height)
    ensures forall m :: 0 <= m < |earlier + next| ==> HasGlyph(font, (earlier + next)[m].c)
    ensures AllPrecede(font, broken, earlier + next, newX, newY) && InOrder(font, broken, earlier + next)
  {
    forall j, k | 0 <= j < k < |earlier + next|
      ensures Precedes(font, broken, (earlier + next)[j], (earlier + next)[k].x, (earlier + next)[k].y)
    {
      if j < |earlier| {
        assert Precedes(font, broken, earlier[j], x, y);
        if |earlier| <= k {
          assert (earlier + next)[k] == next[k - |earlier|];
        }
      } else {
        assert (earlier + next)[j] == next[j - |earlier|] && (earlier + next)[k] == next[k - |earlier|];
      }
    }
  }

  /** Every cell of the first `n` characters precedes the next character, and the cells precede each other in order. */
  lemma {:induction false} CellsInOrder(font: Font, s: string, n: nat, x0: int, y0: int, color: word, background: word)
    requires WellFormedFont(font) && Printable(font, s) && n <= |s|
    ensures AllPrecede(font, '\n' in s, Cells(font, s, n, x0, y0, color, background),
                       CharX(font, s, n, x0), CharY(font, s, n, y0))
    ensures InOrder(font, '\n' in s, Cells(font, s, n, x0, y0, color, background))
  {
    if n == 0 {
      LayoutStarts(font, s, x0, y0, color, background);
    } else {
      CellsInOrder(font, s, n - 1, x0, y0, color, background);
      OrderStep(font, s, n - 1, x0, y0, color, background);
    }
  }

  lemma OrderStep(font: Font, s: string, i: nat, x0: int, y0: int, color: word, background: word)
    requires WellFormedFont(font) && Printable(font, s) && i < |s|
    requires AllPrecede(font, '\n' in s, Cells(font, s, i, x0, y0, color, background),
                        CharX(font, s, i, x0), CharY(font, s, i, y0))
    requires InOrder(font, '\n' in s, Cells(font, s, i, x0, y0, color, background))
    ensures AllPrecede(font, '\n' in s, Cells(font, s, i + 1, x0, y0, color, background),
                       CharX(font, s, i + 1, x0), CharY(font, s, i + 1, y0))
    ensures InOrder(font, '\n' in s, Cells(font, s, i + 1, x0, y0, color, background))
  {
    hide CharX, CharY, CharCells, Cells, InOrder;
    var broken, x, y := '\n' in s, CharX(font, s, i, x0), CharY(font, s, i, y0);
    var next := CharCells(font, s[i], x, y, color, background);
    CellsStep(font, s, i, x0, y0, color, background);
    CursorMoves(font, s, i, x0, y0);
    NewCells(font, broken, s[i], x, y, color, background);
    OrderGrows(font, broken, Cells(font, s, i, x0, y0, color, background), next, x, y,
               CharX(font, s, i + 1, x0), CharY(font, s, i + 1, y0));
  }

  ghost predicate OnLines(font: Font, cells: seq<Cell>, stride: int)
    requires forall m :: 0 <= m < |cells| ==> HasGlyph(font, cells[m].c)
  {
    forall m :: 0 <= m < |cells| ==> 0 <= cells[m].x && cells[m].x + GlyphOf(font, cells[m].c).width <= stride
  }

  /** No glyph is higher than the '|' that sets the line spacing; all glyphs of the two fonts are equally high. */
  ghost predicate LinesClear(font: Font)
    requires WellFormedFont(font)
  {
    forall g :: g in font ==> g.height <= GlyphOf(font, '|').height
  }

  ghost predicate CellsApart(font: Font, cells: seq<Cell>, stride: int)
    requires forall m :: 0 <= m < |cells| ==> HasGlyph(font, cells[m].c)
  {
    forall j, k, at :: 0 <= j < k < |cells| && InCell(font, cells[j], stride, at) ==>
      !InCell(font, cells[k], stride, at)
  }

  lemma TwoCellsApart(font: Font, broken: bool, a: Cell, b: Cell, stride: int, at: int)
    requires WellFormedFont(font) && (broken ==> LinesClear(font)) && HasGlyph(font, a.c) && HasGlyph(font, b.c)
    requires 0 <= a.x && a.x + GlyphOf(font, a.c).width <= stride
    requires 0 <= b.x && b.x + GlyphOf(font, b.c).width <= stride
    requires Precedes(font, broken, a, b.x, b.y) && InCell(font, a, stride, at)
    ensures !InCell(font, b, stride, at)
  {
    assert GlyphOf(font, a.c) in font;
    RectCoordinates(at, a.x, a.y, GlyphOf(font, a.c).width, GlyphOf(font, a.c).height, stride);
    if InCell(font, b, stride, at) {
      RectCoordinates(at, b.x, b.y, GlyphOf(font, b.c).width, GlyphOf(font, b.c).height, stride);
    }
  }

  /** The cells of a string on lines that do not run over the screen's edge share no pixel. */
  lemma CellsAreApart(font: Font, s: string, x0: int, y0: int, color: word, background: word, stride: int)
    requires WellFormedFont(font) && Printable(font, s) && ('\n' in s ==> LinesClear(font))
    requires OnLines(font, Cells(font, s, |s|, x0, y0, color, background), stride)
    ensures CellsApart(font, Cells(font, s, |s|, x0, y0, color, background), stride)
  {
    hide InCell;
    var cells := Cells(font, s, |s|, x0, y0, color, background);
    CellsInOrder(font, s, |s|, x0, y0, color, background);
    forall j, k, at | 0 <= j < k < |cells| && InCell(font, cells[j], stride, at)
      ensures !InCell(font, cells[k], stride, at)
    {
      TwoCellsApart(font, '\n' in s, cells[j], cells[k], stride, at);
    }
  }

  // ----- the final picture -----

  /** Outside all cells the text leaves the view as it was. */
  lemma {:induction false} OutsideUntouched(font: Font, cells: seq<Cell>, view: Picture, stride: int, background: word,
                                            k: int)
    requires WellFormedFont(font) && AllInFrame(font, cells, stride, |view|)
    requires 0 <= k < |view| && OutsideCells(font, cells, stride, k)
    ensures Rendered(font, cells, view, stride, background)[k] == view[k]
  {
    if cells != [] {
      OutsideUntouched(font, cells[..|cells| - 1], view, stride, background, k);
      LayerPlaces(font, cells[|cells| - 1], Rendered(font, cells[..|cells| - 1], view, stride, background), stride,
                  background, k);
    }
  }

  lemma UntouchedCell(font: Font, front: seq<Cell>, last: Cell, view: Picture, stride: int, background: word)
    requires WellFormedFont(font) && AllInFrame(font, front, stride, |view|) && CellInFrame(font, last, stride, |view|)
    requires forall m, at :: 0 <= m < |front| && InCell(font, front[m], stride, at) ==> !InCell(font, last, stride, at)
    ensures LayerOf(font, last, Rendered(font, front, view, stride, background), stride, background)
            == LayerOf(font, last, view, stride, background)
  {
    hide BlendedColor;
    var before := Rendered(font, front, view, stride, background);
    forall k | InCell(font, last, stride, k)
      ensures 0 <= k < |view| && before[k] == view[k]
    {
      LayerPlaces(font, last, view, stride, background, k);
      OutsideUntouched(font, front, view, stride, background, k);
    }
  }

  /** Cells that do not touch are drawn as if each were drawn alone, over clear backgrounds too. */
  lemma {:induction false} ApartTextIsOverlay(font: Font, cells: seq<Cell>, view: Picture, stride: int,
                                              background: word)
    requires WellFormedFont(font) && AllInFrame(font, cells, stride, |view|)
    requires CellsApart(font, cells, stride)
    ensures Rendered(font, cells, view, stride, background)
            == OverlayAll(view, LayersOn(font, cells, view, stride, background))
  {
    if cells != [] {
      var front, last := cells[..|cells| - 1], cells[|cells| - 1];
      ApartTextIsOverlay(font, front, view, stride, background);
      UntouchedCell(font, front, last, view, stride, background);
      var layers := LayersOn(font, cells, view, stride, background);
      assert layers[..|layers| - 1] == LayersOn(font, front, view, stride, background);
    }
  }

  lemma LayersAgree(font: Font, cells: seq<Cell>, view: Picture, stride: int, background: word)
    requires WellFormedFont(font) && AllInFrame(font, cells, stride, |view|)
    requires CellsApart(font, cells, stride)
    ensures Agreeing(LayersOn(font, cells, view, stride, background))
  {
    hide LayerOf;
    var layers := LayersOn(font, cells, view, stride, background);
    forall a, b, k | a in layers && b in layers && k in a && k in b
      ensures a[k] == b[k]
    {
      var i :| 0 <= i < |layers| && layers[i] == a;
      var j :| 0 <= j < |layers| && layers[j] == b;
      LayerPlaces(font, cells[i], view, stride, background, k);
      LayerPlaces(font, cells[j], view, stride, background, k);
      assert i == j;
    }
  }

  lemma CellPixel(font: Font, cells: seq<Cell>, background: word, view: Picture, stride: int, m: nat, row: int,
                  col: int)
    requires WellFormedFont(font) && AllInFrame(font, cells, stride, |view|) && CellsApart(font, cells, stride)
    requires m < |cells|
    requires 0 <= row < GlyphOf(font, cells[m].c).height && 0 <= col < GlyphOf(font, cells[m].c).width
    ensures PixelBlended(font, cells[m], background, view, Rendered(font, cells, view, stride, background), stride,
                         row, col)
  {
    hide BlendedColor, LayerOf;
    ApartTextIsOverlay(font, cells, view, stride, background);
    LayersAgree(font, cells, view, stride, background);
    PixelOfLayer(font, cells[m], view, stride, background, row, col);
    AgreeingShows(view, LayersOn(font, cells, view, stride, background),
                  LayerOf(font, cells[m], view, stride, background),
                  Slot(cells[m].y + row, cells[m].x + col, stride));
  }

  /** In the later view, the pixel at (row, col) of the cell is the channel-wise blend, by its alpha, of the cell's
      colour and the background, which is the earlier view where the background is clear. */
  ghost predicate PixelBlended(font: Font, cell: Cell, background: word, earlier: Picture, later: Picture, stride: int,
                               row: int, col: int)
    requires HasGlyph(font, cell.c) && |later| == |earlier|
  {
    var at, g := Slot(cell.y + row, cell.x + col, stride), GlyphOf(font, cell.c);
    && 0 <= at < |earlier| && 0 <= Slot(row, col, g.width) < |g.alpha|
    && later[at] == BlendedColor(cell.color, if background == CLEAR_BACKGROUND then earlier[at] else background,
                                 g.alpha[Slot(row, col, g.width)])
  }

  /** A printed string shows every pixel of every glyph blended, and nothing else of the picture changes. */
  lemma TextPicture(font: Font, s: string, x0: int, y0: int, color: word, background: word, view: Picture, stride: int)
    requires WellFormedFont(font) && Printable(font, s) && ('\n' in s ==> LinesClear(font))
    requires AllInFrame(font, Cells(font, s, |s|, x0, y0, color, background), stride, |view|)
    requires OnLines(font, Cells(font, s, |s|, x0, y0, color, background), stride)
    ensures var cells := Cells(font, s, |s|, x0, y0, color, background);
            var after := Rendered(font, cells, view, stride, background);
            && (forall m, row, col :: 0 <= m < |cells| && 0 <= row < GlyphOf(font, cells[m].c).height
                                      && 0 <= col < GlyphOf(font, cells[m].c).width ==>
                  PixelBlended(font, cells[m], background, view, after, stride, row, col))
            && (forall k :: 0 <= k < |view| && OutsideCells(font, cells, stride, k) ==>
                  after[k] == view[k])
  {
    hide PixelBlended, InCell, Rendered;
    var cells := Cells(font, s, |s|, x0, y0, color, background);
    CellsAreApart(font, s, x0, y0, color, background, stride);
    forall m, row, col | 0 <= m < |cells| && 0 <= row < GlyphOf(font, cells[m].c).height
                         && 0 <= col < GlyphOf(font, cells[m].c).width
      ensures PixelBlended(font, cells[m], background, view, Rendered(font, cells, view, stride, background), stride,
                           row, col)
    {
      CellPixel(font, cells, background, view, stride, m, row, col);
    }
    forall k | 0 <= k < |view| && OutsideCells(font, cells, stride, k)
      ensures Rendered(font, cells, view, stride, background)[k] == view[k]
    {
      OutsideUntouched(font, cells, view, stride, background, k);
    }
  }

  lemma PixelOfLayer(font: Font, cell: Cell, view: Picture, stride: int, background: word, row: int, col: int)
    requires WellFormedFont(font) && CellInFrame(font, cell, stride, |view|)
    requires 0 <= row < GlyphOf(font, cell.c).height && 0 <= col < GlyphOf(font, cell.c).width
    ensures var at, g := Slot(cell.y + row, cell.x + col, stride), GlyphOf(font, cell.c);
            && 0 <= at < |view| && 0 <= Slot(row, col, g.width) < |g.alpha|
            && at in LayerOf(font, cell, view, stride, background)
            && LayerOf(font, cell, view, stride, background)[at]
               == BlendedColor(cell.color, if background == CLEAR_BACKGROUND then view[at] else background,
                               g.alpha[Slot(row, col, g.width)])
  {
    hide BlendedColor;
    var g := GlyphOf(font, cell.c);
    RectSlot(cell.x, cell.y, col, row, stride);
    SlotIsActive(row, col, g.width, g.height, stride);
    AlphaInside(g, row, col);
    LayerPlaces(font, cell, view, stride, background, Slot(cell.y + row, cell.x + col, stride));
  }

  // ----- pixels of fixed colour -----

  /** Alpha 0 leaves the background of a text pixel, alpha 255 the text colour. */
  lemma ExtremeAlpha(text: word, background: word)
    ensures BlendedColor(text, background, 0) == Low24(background)
    ensures BlendedColor(text, background, 0xff) == Low24(text)
  {
    BlendByteEnds(RedOf(text), RedOf(background));
    BlendByteEnds(GreenOf(text), GreenOf(background));
    BlendByteEnds(BlueOf(text), BlueOf(background));
    ColorOfChannels(text);
    ColorOfChannels(background);
  }

  /** A blend of the background with itself is the background. */
  lemma BlendOfBackground(background: word, alpha: byte)
    ensures BlendedColor(background, background, alpha) == Low24(background)
  {
    BlendByteSame(RedOf(background), alpha);
    BlendByteSame(GreenOf(background), alpha);
    BlendByteSame(BlueOf(background), alpha);
    ColorOfChannels(background);
  }

  lemma CellsOfChar(font: Font, s: string, i: nat, x0: int, y0: int, color: word, background: word, t: nat)
    requires WellFormedFont(font) && Printable(font, s) && i < |s|
    requires t < |CharCells(font, s[i], CharX(font, s, i, x0), CharY(font, s, i, y0), color, background)|
    ensures var earlier, all := |Cells(font, s, i, x0, y0, color, background)|,
                                Cells(font, s, |s|, x0, y0, color, background);
            earlier + t < |all| && all[earlier + t]
            == CharCells(font, s[i], CharX(font, s, i, x0), CharY(font, s, i, y0), color, background)[t]
  {
    hide Cells, CharCells, CharX, CharY;
    CellsStep(font, s, i, x0, y0, color, background);
    CellsGrow(font, s, i + 1, |s|, x0, y0, color, background);
  }

  lemma DashOfBlank(font: Font, c: char, x: int, y: int, color: word, background: word, col: int)
    returns (t: nat, within: int)
    requires WellFormedFont(font) && (c == ' ' || c == '\t') && background != CLEAR_BACKGROUND
    requires 0 <= col < Advance(font, c)
    ensures t < |CharCells(font, c, x, y, color, background)|
    ensures 0 <= within < GlyphOf(font, '-').width
    ensures CharCells(font, c, x, y, color, background)[t] == Cell(x + col - within, y, '-', background)
  {
    var w := GlyphOf(font, '-').width;
    t, within := if col < w then 0 else 1, if col < w then col else col - w;
  }

  /** On an opaque background every pixel in the place of a space or tab is of the background colour. */
  lemma BlankIsBackground(font: Font, s: string, x0: int, y0: int, color: word, background: word, view: Picture,
                          stride: int, i: nat, row: int, col: int)
    requires WellFormedFont(font) && Printable(font, s) && ('\n' in s ==> LinesClear(font))
    requires AllInFrame(font, Cells(font, s, |s|, x0, y0, color, background), stride, |view|)
    requires OnLines(font, Cells(font, s, |s|, x0, y0, color, background), stride)
    requires background != CLEAR_BACKGROUND && i < |s| && (s[i] == ' ' || s[i] == '\t')
    requires 0 <= row < GlyphOf(font, '-').height && 0 <= col < Advance(font, s[i])
    ensures var at := Slot(CharY(font, s, i, y0) + row, CharX(font, s, i, x0) + col, stride);
            && 0 <= at < |view|
            && Rendered(font, Cells(font, s, |s|, x0, y0, color, background), view, stride, background)[at]
               == Low24(background)
  {
    hide Cells, CharCells, CharX, CharY, Rendered, InCell, AllInFrame, BlendedColor, Low24, Slot;
    var cells, w := Cells(font, s, |s|, x0, y0, color, background), GlyphOf(font, '-').width;
    var t, within := DashOfBlank(font, s[i], CharX(font, s, i, x0), CharY(font, s, i, y0), color, background, col);
    CellsOfChar(font, s, i, x0, y0, color, background, t);
    var m := |Cells(font, s, i, x0, y0, color, background)| + t;
    TextPicture(font, s, x0, y0, color, background, view, stride);
    assert PixelBlended(font, cells[m], background, view, Rendered(font, cells, view, stride, background), stride, row,
                        within);
    BlendOfBackground(background, GlyphOf(font, '-').alpha[Slot(row, within, w)]);
  }

  // ----- measuring -----

  /** On strings without tab and newline a character stands at the start plus the measured length of the text before. */
  lemma MeasuredPlacement(font: Font, s: string, i: nat, x0: int, y0: int)
    requires WellFormedFont(font) && Printable(font, s) && '\n' !in s && i <= |s|
    ensures CharX(font, s, i, x0) == x0 + Width(font, s[..i]) && CharY(font, s, i, y0) == y0
  {
    assert LineBefore(s, i) == s[..i];
    NoNewlines(s[..i]);
  }

  lemma {:induction false} NoNewlines(s: string)
    requires '\n' !in s
    ensures Newlines(s) == 0
  {
    if s != "" {
      NoNewlines(s[..|s| - 1]);
    }
  }
}
