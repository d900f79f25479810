/** simple_text.c: a printed string, pixel by pixel, from the string and the font alone. */
module PrintedText {
  import opened Memory
  import opened Raster
  import opened Overlays
  import opened SimpleText
  import opened TextLayout
  import opened TextPictures

  // ----- where the pen stands -----

  /** Left edge of what follows a character at `x`; a space is as wide as a '-', a tab as two of them. */
  function NextX(font: Font, c: char, x: int, x0: int): int
    requires WellFormedFont(font) && CanPrint(font, c)
  {
    if c == '\n' then x0
    else if c == ' ' then x + font[12].width
    else if c == '\t' then x + font[12].width + font[12].width
    else x + font[c as int - 33].width
  }

  /** Left edge of character `i` of a string that starts at `x0`. */
  function PenX(font: Font, s: string, i: nat, x0: int): int
    requires WellFormedFont(font) && Printable(font, s) && i <= |s|
  {
    if i == 0 then x0 else NextX(font, s[i - 1], PenX(font, s, i - 1, x0), x0)
  }

  /** Top edge of character `i`; a line is as high as a '|'. */
  function PenY(font: Font, s: string, i: nat, y0: int): int
    requires WellFormedFont(font) && i <= |s|
  {
    if i == 0 then y0
    else if s[i - 1] == '\n' then PenY(font, s, i - 1, y0) + font[91].height
    else PenY(font, s, i - 1, y0)
  }

  lemma CharXMoves(font: Font, s: string, i: nat, x0: int)
    requires WellFormedFont(font) && Printable(font, s) && i < |s|
    ensures CharX(font, s, i + 1, x0) == NextX(font, s[i], CharX(font, s, i, x0), x0)
  {
    hide CharX, CharY, Advance, GlyphOf, WellFormedFont;
    CursorMoves(font, s, i, x0, 0);
    PenAdvances(font, s[i]);
  }

  lemma {:induction false} PenXMeasures(font: Font, s: string, i: nat, x0: int)
    requires WellFormedFont(font) && Printable(font, s) && i <= |s|
    ensures CharX(font, s, i, x0) == PenX(font, s, i, x0)
  {
    hide CharX, CharY, NextX, WellFormedFont, Cells;
    if i == 0 {
      LayoutStarts(font, s, x0, 0, 0, 0);
    } else {
      PenXMeasures(font, s, i - 1, x0);
      CharXMoves(font, s, i - 1, x0);
    }
  }

  lemma {:induction false} PenYMeasures(font: Font, s: string, i: nat, y0: int)
    requires WellFormedFont(font) && Printable(font, s) && i <= |s|
    ensures CharY(font, s, i, y0) == PenY(font, s, i, y0)
  {
    hide CharX, CharY, Advance, GlyphOf, WellFormedFont, Cells;
    if i == 0 {
      LayoutStarts(font, s, 0, y0, 0, 0);
    } else {
      PenYMeasures(font, s, i - 1, y0);
      CursorMoves(font, s, i - 1, 0, y0);
      PenAdvances(font, s[i - 1]);
    }
  }

  /** The measured layout is where the pen stands. */
  lemma PenMeasures(font: Font, s: string, i: nat, x0: int, y0: int)
    requires WellFormedFont(font) && Printable(font, s) && i <= |s|
    ensures CharX(font, s, i, x0) == PenX(font, s, i, x0) && CharY(font, s, i, y0) == PenY(font, s, i, y0)
  {
    PenXMeasures(font, s, i, x0);
    PenYMeasures(font, s, i, y0);
  }

  lemma PenAdvances(font: Font, c: char)
    requires WellFormedFont(font) && CanPrint(font, c)
    ensures 91 < |font| && GlyphOf(font, '|').height == font[91].height
    ensures c == ' ' ==> Advance(font, c) == font[12].width
    ensures c == '\t' ==> Advance(font, c) == font[12].width + font[12].width
    ensures c != ' ' && c != '\t' && c != '\n' ==>
              33 <= c as int < 33 + |font| && Advance(font, c) == font[c as int - 33].width
  {
  }

  // ----- what a character paints -----

  predicate IsLetter(c: char) { c != ' ' && c != '\t' && c != '\n' }

  /** Letters are painted always, blanks on an opaque background only. */
  predicate IsPainted(c: char, background: word) { IsLetter(c) || (c != '\n' && background != 0xffffffff) }

  function PaintedWidth(font: Font, c: char, background: word): int
    requires WellFormedFont(font) && CanPrint(font, c)
  {
    if !IsPainted(c, background) then 0
    else if IsLetter(c) then font[c as int - 33].width
    else if c == ' ' then font[12].width
    else font[12].width + font[12].width
  }

  function PaintedHeight(font: Font, c: char): int
    requires WellFormedFont(font) && CanPrint(font, c)
  {
    if IsLetter(c) then font[c as int - 33].height else font[12].height
  }

  /** The word of pixel (row, col) of character `i`. */
  function PixelPlace(font: Font, s: string, i: nat, x0: int, y0: int, stride: int, row: int, col: int): int
    requires WellFormedFont(font) && Printable(font, s) && i < |s|
  {
    (PenY(font, s, i, y0) + row) * stride + PenX(font, s, i, x0) + col
  }

  predicate PaintsPixel(font: Font, s: string, i: int, background: word, row: int, col: int)
    requires WellFormedFont(font) && Printable(font, s)
  {
    && 0 <= i < |s|
    && 0 <= row < PaintedHeight(font, s[i])
    && 0 <= col < PaintedWidth(font, s[i], background)
  }

  /** Nothing painted runs over the edges of the screen's lines. */
  ghost predicate StaysOnLines(font: Font, s: string, x0: int, background: word, stride: int)
    requires WellFormedFont(font) && Printable(font, s)
  {
    forall i :: 0 <= i < |s| && IsPainted(s[i], background) ==>
      0 <= PenX(font, s, i, x0) && PenX(font, s, i, x0) + PaintedWidth(font, s[i], background) <= stride
  }

  /** The pixel shows the letter's colour over the background, or over what was there, by the glyph's own alpha. */
  ghost predicate ShowsLetter(now: Picture, before: Picture, font: Font, s: string, i: int, x0: int, y0: int,
                              color: word, background: word, stride: int, row: int, col: int)
    requires WellFormedFont(font) && Printable(font, s) && PaintsPixel(font, s, i, background, row, col)
    requires IsLetter(s[i]) && |now| == |before|
  {
    var g, at := font[s[i] as int - 33], PixelPlace(font, s, i, x0, y0, stride, row, col);
    && 0 <= at < |now| && 0 <= row * g.width + col < |g.alpha|
    && ShowsMean(now[at], color, if background == 0xffffffff then before[at] else background,
                 g.alpha[row * g.width + col])
  }

  ghost predicate ShowsBlank(now: Picture, font: Font, s: string, i: int, x0: int, y0: int, background: word,
                             stride: int, row: int, col: int)
    requires WellFormedFont(font) && Printable(font, s) && 0 <= i < |s|
  {
    var at := PixelPlace(font, s, i, x0, y0, stride, row, col);
    0 <= at < |now| && Low24(now[at]) == Low24(background)
  }

  // ----- from characters to cells and back -----

  /** The character and the place in it from which a cell comes. */
  lemma {:induction false} CellOrigin(font: Font, s: string, n: nat, x0: int, y0: int, color: word, background: word,
                                      m: nat) returns (i: nat, t: nat)
    requires WellFormedFont(font) && Printable(font, s) && n <= |s|
    requires m < |Cells(font, s, n, x0, y0, color, background)|
    ensures i < n
    ensures var cells := CharCells(font, s[i], CharX(font, s, i, x0), CharY(font, s, i, y0), color, background);
            t < |cells| && Cells(font, s, n, x0, y0, color, background)[m] == cells[t]
  {
    hide CharX, CharY, CharCells;
    var earlier := |Cells(font, s, n - 1, x0, y0, color, background)|;
    if m < earlier {
      i, t := CellOrigin(font, s, n - 1, x0, y0, color, background, m);
    } else {
      i, t := n - 1, m - earlier;
    }
  }

  /** A cell of a character covers pixels that the character paints. */
  lemma CellInCharacter(font: Font, c: char, x: int, y: int, color: word, background: word, t: nat)
    requires WellFormedFont(font) && CanPrint(font, c) && t < |CharCells(font, c, x, y, color, background)|
    ensures var cell := CharCells(font, c, x, y, color, background)[t];
            && IsPainted(c, background) && cell.y == y && x <= cell.x
            && cell.x + GlyphOf(font, cell.c).width <= x + PaintedWidth(font, c, background)
            && GlyphOf(font, cell.c).height == PaintedHeight(font, c)
  {
  }

  lemma CellsOnLines(font: Font, s: string, x0: int, y0: int, color: word, background: word, stride: int)
    requires WellFormedFont(font) && Printable(font, s) && StaysOnLines(font, s, x0, background, stride)
    ensures OnLines(font, Cells(font, s, |s|, x0, y0, color, background), stride)
  {
    hide Cells, CharCells, CharX, CharY, PenX;
    var cells := Cells(font, s, |s|, x0, y0, color, background);
    forall m | 0 <= m < |cells|
      ensures 0 <= cells[m].x && cells[m].x + GlyphOf(font, cells[m].c).width <= stride
    {
      var i, t := CellOrigin(font, s, |s|, x0, y0, color, background, m);
      CellInCharacter(font, s[i], CharX(font, s, i, x0), CharY(font, s, i, y0), color, background, t);
      PenMeasures(font, s, i, x0, y0);
    }
  }

  /** A pixel of some character. */
  ghost predicate IsPaintedPlace(font: Font, s: string, x0: int, y0: int, background: word, stride: int, k: int)
    requires WellFormedFont(font) && Printable(font, s)
  {
    exists i, row, col :: PaintsPixel(font, s, i, background, row, col)
                          && k == PixelPlace(font, s, i, x0, y0, stride, row, col)
  }

  lemma CellPlace(font: Font, s: string, x0: int, y0: int, color: word, background: word, stride: int, m: nat, k: int)
    requires WellFormedFont(font) && Printable(font, s)
    requires m < |Cells(font, s, |s|, x0, y0, color, background)|
    requires InCell(font, Cells(font, s, |s|, x0, y0, color, background)[m], stride, k)
    ensures IsPaintedPlace(font, s, x0, y0, background, stride, k)
  {
    hide Cells, CharCells, CharX, CharY, PenX, PenY, PaintedWidth, PaintedHeight, GlyphOf;
    var cell := Cells(font, s, |s|, x0, y0, color, background)[m];
    var i, t := CellOrigin(font, s, |s|, x0, y0, color, background, m);
    CellInCharacter(font, s[i], CharX(font, s, i, x0), CharY(font, s, i, y0), color, background, t);
    PenMeasures(font, s, i, x0, y0);
    var p := k - Slot(cell.y, cell.x, stride);
    ActiveIsSlot(p, GlyphOf(font, cell.c).width, GlyphOf(font, cell.c).height, stride);
    RectSlot(cell.x, cell.y, p % stride, p / stride, stride);
    assert PaintsPixel(font, s, i, background, p / stride, cell.x - PenX(font, s, i, x0) + p % stride);
  }

  lemma OutsideString(font: Font, s: string, x0: int, y0: int, color: word, background: word, stride: int, k: int)
    requires WellFormedFont(font) && Printable(font, s) && !IsPaintedPlace(font, s, x0, y0, background, stride, k)
    ensures OutsideCells(font, Cells(font, s, |s|, x0, y0, color, background), stride, k)
  {
    hide Cells, InCell, IsPaintedPlace;
    var cells := Cells(font, s, |s|, x0, y0, color, background);
    forall m | 0 <= m < |cells|
      ensures !InCell(font, cells[m], stride, k)
    {
      if InCell(font, cells[m], stride, k) {
        CellPlace(font, s, x0, y0, color, background, stride, m, k);
      }
    }
  }

  lemma LetterCell(font: Font, s: string, i: nat, x0: int, y0: int, color: word, background: word) returns (m: nat)
    requires WellFormedFont(font) && Printable(font, s) && i < |s| && IsLetter(s[i])
    ensures m < |Cells(font, s, |s|, x0, y0, color, background)|
    ensures Cells(font, s, |s|, x0, y0, color, background)[m]
            == Cell(PenX(font, s, i, x0), PenY(font, s, i, y0), s[i], color)
  {
    hide Cells, CharX, CharY, PenX, PenY;
    PenMeasures(font, s, i, x0, y0);
    assert CharCells(font, s[i], CharX(font, s, i, x0), CharY(font, s, i, y0), color, background)
        == [Cell(PenX(font, s, i, x0), PenY(font, s, i, y0), s[i], color)];
    CellsOfChar(font, s, i, x0, y0, color, background, 0);
    m := |Cells(font, s, i, x0, y0, color, background)|;
  }

  // ----- the printed string -----

  /** Frames before and after a string is printed. */
  ghost predicate PrintedOn(now: Picture, before: Picture, font: Font, s: string, x0: int, y0: int, color: word,
                            background: word, stride: int)
  {
    && WellFormedFont(font) && Printable(font, s) && ('\n' in s ==> LinesClear(font))
    && StaysOnLines(font, s, x0, background, stride)
    && Printed(now, before, font, Cells(font, s, |s|, x0, y0, color, background), stride, background)
  }

  lemma LetterBlended(now: Picture, before: Picture, font: Font, s: string, x0: int, y0: int, color: word,
                      background: word, stride: int, i: nat, row: int, col: int)
    requires PrintedOn(now, before, font, s, x0, y0, color, background, stride)
    requires PaintsPixel(font, s, i, background, row, col) && IsLetter(s[i])
    ensures var g, at := font[s[i] as int - 33], PixelPlace(font, s, i, x0, y0, stride, row, col);
            && 0 <= at < |now| == |before| && 0 <= row * g.width + col < |g.alpha|
            && Low24(now[at]) == BlendedColor(color, if background == 0xffffffff then Low24(before[at]) else background,
                                              g.alpha[row * g.width + col])
  {
    hide Cells, Rendered, InCell, AllInFrame, BlendedColor, PenX, PenY, StaysOnLines, OnLines, LinesClear;
    var cells := Cells(font, s, |s|, x0, y0, color, background);
    CellsOnLines(font, s, x0, y0, color, background, stride);
    CellsAreApart(font, s, x0, y0, color, background, stride);
    var m := LetterCell(font, s, i, x0, y0, color, background);
    CellPixel(font, cells, background, Visible(before), stride, m, row, col);
  }

  lemma LetterShows(now: Picture, before: Picture, font: Font, s: string, x0: int, y0: int, color: word,
                    background: word, stride: int, i: nat, row: int, col: int)
    requires PrintedOn(now, before, font, s, x0, y0, color, background, stride)
    requires PaintsPixel(font, s, i, background, row, col) && IsLetter(s[i])
    ensures ShowsLetter(now, before, font, s, i, x0, y0, color, background, stride, row, col)
  {
    hide Printed, StaysOnLines, LinesClear, Cells, BlendedColor, ShowsMean, PixelPlace;
    LetterBlended(now, before, font, s, x0, y0, color, background, stride, i, row, col);
    var g, at := font[s[i] as int - 33], PixelPlace(font, s, i, x0, y0, stride, row, col);
    var alpha := g.alpha[row * g.width + col];
    BlendedColorShowsMean(color, if background == 0xffffffff then Low24(before[at]) else background, alpha);
    LowShowsMean(now[at], color, if background == 0xffffffff then Low24(before[at]) else background, alpha);
    LowShowsMean(now[at], color, before[at], alpha);
  }

  /** Pixels of full alpha have the text colour, and those of alpha 0 the background, or what was there before. */
  lemma ExtremePixels(now: Picture, before: Picture, font: Font, s: string, x0: int, y0: int, color: word,
                      background: word, stride: int, i: nat, row: int, col: int)
    requires PrintedOn(now, before, font, s, x0, y0, color, background, stride)
    requires PaintsPixel(font, s, i, background, row, col) && IsLetter(s[i])
    ensures var g, at := font[s[i] as int - 33], PixelPlace(font, s, i, x0, y0, stride, row, col);
            && 0 <= at < |now| == |before| && 0 <= row * g.width + col < |g.alpha|
            && (g.alpha[row * g.width + col] == 0xff ==> Low24(now[at]) == Low24(color))
            && (g.alpha[row * g.width + col] == 0 ==>
                  Low24(now[at]) == Low24(if background == 0xffffffff then before[at] else background))
  {
    hide Printed, StaysOnLines, LinesClear, Cells, BlendedColor, PixelPlace, Low24;
    LetterBlended(now, before, font, s, x0, y0, color, background, stride, i, row, col);
    var at := PixelPlace(font, s, i, x0, y0, stride, row, col);
    ExtremeAlpha(color, if background == 0xffffffff then Low24(before[at]) else background);
    LowTwice(before[at]);
  }

  lemma LowTwice(w: word)
    ensures Low24(Low24(w)) == Low24(w)
  {
  }

  lemma BlankShows(now: Picture, before: Picture, font: Font, s: string, x0: int, y0: int, color: word,
                   background: word, stride: int, i: nat, row: int, col: int)
    requires PrintedOn(now, before, font, s, x0, y0, color, background, stride)
    requires PaintsPixel(font, s, i, background, row, col) && !IsLetter(s[i])
    ensures ShowsBlank(now, font, s, i, x0, y0, background, stride, row, col)
  {
    hide Cells, Rendered, InCell, AllInFrame, CharX, CharY, PenX, PenY, StaysOnLines, OnLines, LinesClear, Low24;
    CellsOnLines(font, s, x0, y0, color, background, stride);
    PenMeasures(font, s, i, x0, y0);
    BlankIsBackground(font, s, x0, y0, color, background, Visible(before), stride, i, row, col);
  }

  lemma OutsideShows(now: Picture, before: Picture, font: Font, s: string, x0: int, y0: int, color: word,
                     background: word, stride: int, k: int)
    requires PrintedOn(now, before, font, s, x0, y0, color, background, stride)
    requires 0 <= k < |now| && !IsPaintedPlace(font, s, x0, y0, background, stride, k)
    ensures |now| == |before| && now[k] == before[k]
  {
    hide Cells, Rendered, OutsideCells, AllInFrame, Visible, IsPaintedPlace;
    OutsideString(font, s, x0, y0, color, background, stride, k);
  }

  /** A printed string: every pixel of every letter shows the text colour over the background by the glyph's own alpha,
      every pixel of a blank the background, and every other word of the frame is what it was. */
  lemma StringPicture(now: Picture, before: Picture, font: Font, s: string, x0: int, y0: int, color: word,
                      background: word, stride: int)
    requires PrintedOn(now, before, font, s, x0, y0, color, background, stride)
    ensures |now| == |before|
    ensures forall i, row, col :: PaintsPixel(font, s, i, background, row, col) ==>
              if IsLetter(s[i]) then ShowsLetter(now, before, font, s, i, x0, y0, color, background, stride, row, col)
              else ShowsBlank(now, font, s, i, x0, y0, background, stride, row, col)
    ensures forall k :: 0 <= k < |now| && !IsPaintedPlace(font, s, x0, y0, background, stride, k) ==>
              now[k] == before[k]
  {
    hide ShowsLetter, ShowsBlank, IsPaintedPlace, Cells, Rendered, AllInFrame, OutsideCells, Visible;
    forall i, row, col | PaintsPixel(font, s, i, background, row, col)
      ensures 0 <= i < |s|
      ensures if IsLetter(s[i]) then ShowsLetter(now, before, font, s, i, x0, y0, color, background, stride, row, col)
              else ShowsBlank(now, font, s, i, x0, y0, background, stride, row, col)
    {
      if IsLetter(s[i]) {
        LetterShows(now, before, font, s, x0, y0, color, background, stride, i, row, col);
      } else {
        BlankShows(now, before, font, s, x0, y0, color, background, stride, i, row, col);
      }
    }
    forall k | 0 <= k < |now| && !IsPaintedPlace(font, s, x0, y0, background, stride, k)
      ensures now[k] == before[k]
    {
      OutsideShows(now, before, font, s, x0, y0, color, background, stride, k);
    }
  }
}
