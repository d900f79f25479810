/** simple_text.c: where the characters of a string go, and what a printed string looks like. */
module TextLayout {
  import opened Common
  import opened Memory
  import opened Raster
  import opened Overlays
  import opened FrameReader
  import opened SimpleText

  // ----- the measured layout: no cursor -----

  /** Width a character takes on its line; a space is one '-', a tab `TAB_SPACING` of them. */
  function Advance(font: Font, c: char): nat
    requires WellFormedFont(font) && c != '\n' && CanPrint(font, c)
  {
    if c == ' ' then GlyphOf(font, '-').width
    else if c == '\t' then TAB_SPACING * GlyphOf(font, '-').width
    else GlyphOf(font, c).width
  }

  /** Width of a piece of one line. */
  function Width(font: Font, line: string): nat
    requires WellFormedFont(font) && Printable(font, line) && '\n' !in line
  {
    if line == "" then 0
    else
      var last := line[|line| - 1];
      Width(font, line[..|line| - 1]) + Advance(font, last)
  }

  /** The text between the last newline before character `i` and that character. */
  function LineBefore(s: string, i: nat): (line: string)
    requires i <= |s|
    ensures '\n' !in line && |line| <= i && line == s[i - |line|..i]
    ensures |line| < i ==> s[i - |line| - 1] == '\n'
  {
    if i == 0 || s[i - 1] == '\n' then "" else LineBefore(s, i - 1) + [s[i - 1]]
  }

  function Newlines(s: string): nat {
    if s == "" then 0 else Newlines(s[..|s| - 1]) + if s[|s| - 1] == '\n' then 1 else 0
  }

  /** Where character `i` stands for a string that starts at (x0, y0). */
  function CharX(font: Font, s: string, i: nat, x0: int): int
    requires WellFormedFont(font) && Printable(font, s) && i <= |s|
  {
    x0 + Width(font, LineBefore(s, i))
  }

  function CharY(font: Font, s: string, i: nat, y0: int): int
    requires WellFormedFont(font) && i <= |s|
  {
    y0 + Newlines(s[..i]) * GlyphOf(font, '|').height
  }

  /** A glyph drawn with its top left pixel at (x, y). */
  datatype Cell = Cell(x: int, y: int, c: char, color: word)

  /** What is drawn for a character at (x, y): nothing for a newline, blanks only if there is a background to fill. */
  function CharCells(font: Font, c: char, x: int, y: int, color: word, background: word): (cells: seq<Cell>)
    requires WellFormedFont(font) && CanPrint(font, c)
    ensures forall k :: 0 <= k < |cells| ==> HasGlyph(font, cells[k].c)
  {
    if c == '\n' || ((c == ' ' || c == '\t') && background == CLEAR_BACKGROUND) then []
    else if c == ' ' then [Cell(x, y, '-', background)]
    else if c == '\t' then Dashes(x, y, GlyphOf(font, '-').width, background, TAB_SPACING)
    else [Cell(x, y, c, color)]
  }

  /** The filled dashes of a tab, `n` of them side by side. */
  function Dashes(x: int, y: int, width: nat, background: word, n: nat): (cells: seq<Cell>)
    ensures |cells| == n
    ensures forall k :: 0 <= k < n ==> cells[k] == Cell(x + k * width, y, '-', background)
  {
    seq(n, k requires 0 <= k < n => Cell(x + k * width, y, '-', background))
  }

  /** The cells of the first `n` characters. */
  function Cells(font: Font, s: string, n: nat, x0: int, y0: int, color: word, background: word): (cells: seq<Cell>)
    requires WellFormedFont(font) && Printable(font, s) && n <= |s|
    ensures forall k :: 0 <= k < |cells| ==> HasGlyph(font, cells[k].c)
  {
    if n == 0 then []
    else
      Cells(font, s, n - 1, x0, y0, color, background)
      + CharCells(font, s[n - 1], CharX(font, s, n - 1, x0), CharY(font, s, n - 1, y0), color, background)
  }

  ghost predicate CellInFrame(font: Font, cell: Cell, stride: int, frameLen: int) {
    && HasGlyph(font, cell.c)
    && CellFits(frameLen, GlyphOf(font, cell.c), Slot(cell.y, cell.x, stride), stride)
  }

  ghost predicate AllInFrame(font: Font, cells: seq<Cell>, stride: int, frameLen: int) {
    forall k :: 0 <= k < |cells| ==> CellInFrame(font, cells[k], stride, frameLen)
  }

  /** The visible frame after the cells are drawn one after the other. */
  function Rendered(font: Font, cells: seq<Cell>, view: Picture, stride: int, background: word): (after: Picture)
    requires WellFormedFont(font) && AllInFrame(font, cells, stride, |view|)
    ensures |after| == |view|
  {
    if cells == [] then view
    else
      var before := Rendered(font, cells[..|cells| - 1], view, stride, background);
      var cell := cells[|cells| - 1];
      Overlay(before, LayerOf(font, cell, before, stride, background))
  }

  function LayerOf(font: Font, cell: Cell, view: Picture, stride: int, background: word): Layer
    requires WellFormedFont(font) && CellInFrame(font, cell, stride, |view|)
  {
    CellLayer(view, GlyphOf(font, cell.c), Slot(cell.y, cell.x, stride), stride, cell.color, background)
  }

  /** Place `k` of the frame is a pixel of the cell. */
  predicate InCell(font: Font, cell: Cell, stride: int, k: int)
    requires HasGlyph(font, cell.c)
  {
    InRect(k, Slot(cell.y, cell.x, stride), GlyphOf(font, cell.c).width, GlyphOf(font, cell.c).height, stride)
  }

  lemma LayerPlaces(font: Font, cell: Cell, view: Picture, stride: int, background: word, k: int)
    requires WellFormedFont(font) && CellInFrame(font, cell, stride, |view|)
    ensures k in LayerOf(font, cell, view, stride, background) <==> InCell(font, cell, stride, k)
  {
    if InCell(font, cell, stride, k) {
      ActiveIsSlot(k - Slot(cell.y, cell.x, stride), GlyphOf(font, cell.c).width, GlyphOf(font, cell.c).height, stride);
    }
  }

  /** Words that no cell covers. */
  ghost predicate OutsideCells(font: Font, cells: seq<Cell>, stride: int, k: int)
    requires forall m :: 0 <= m < |cells| ==> HasGlyph(font, cells[m].c)
  {
    forall m :: 0 <= m < |cells| ==> !InCell(font, cells[m], stride, k)
  }

  // ----- the cursor keeps up with the layout -----

  lemma WidthThen(font: Font, line: string, c: char)
    requires WellFormedFont(font) && Printable(font, line) && '\n' !in line
    requires c != '\n' && CanPrint(font, c)
    ensures Printable(font, line + [c]) && Width(font, line + [c]) == Width(font, line) + Advance(font, c)
  {
    assert (line + [c])[..|line|] == line;
  }

  lemma CursorMoves(font: Font, s: string, i: nat, x0: int, y0: int)
    requires WellFormedFont(font) && Printable(font, s) && i < |s|
    ensures s[i] == '\n' ==>
              && CharX(font, s, i + 1, x0) == x0
              && CharY(font, s, i + 1, y0) == CharY(font, s, i, y0) + GlyphOf(font, '|').height
    ensures s[i] != '\n' ==>
              && CharX(font, s, i + 1, x0) == CharX(font, s, i, x0) + Advance(font, s[i])
              && CharY(font, s, i + 1, y0) == CharY(font, s, i, y0)
  {
    assert s[..i + 1][..i] == s[..i];
    if s[i] != '\n' {
      WidthThen(font, LineBefore(s, i), s[i]);
    }
  }

  lemma {:induction false} CellsGrow(font: Font, s: string, n: nat, m: nat, x0: int, y0: int, color: word,
                                     background: word)
    requires WellFormedFont(font) && Printable(font, s) && n <= m <= |s|
    ensures Cells(font, s, n, x0, y0, color, background) <= Cells(font, s, m, x0, y0, color, background)
  {
    hide CharX, CharY, CharCells;
    if n < m {
      CellsGrow(font, s, n, m - 1, x0, y0, color, background);
    }
  }

  /** A frame on which exactly these cells have been printed. */
  ghost predicate Printed(now: Picture, before: Picture, font: Font, cells: seq<Cell>, stride: int, background: word)
    requires WellFormedFont(font)
  {
    && |now| == |before|
    && AllInFrame(font, cells, stride, |before|)
    && Visible(now) == Rendered(font, cells, Visible(before), stride, background)
    && forall k :: 0 <= k < |now| && OutsideCells(font, cells, stride, k) ==> now[k] == before[k]
  }

  lemma PrintedThen(now: Picture, was: Picture, before: Picture, font: Font, cells: seq<Cell>, cell: Cell,
                    stride: int, background: word)
    requires WellFormedFont(font) && Printed(was, before, font, cells, stride, background)
    requires CellInFrame(font, cell, stride, |before|)
    requires DrawnAll(now, was, LayerOf(font, cell, Visible(was), stride, background))
    ensures Printed(now, before, font, cells + [cell], stride, background)
  {
    hide BlendedColor, InCell;
    var longer := cells + [cell];
    assert longer[..|cells|] == cells;
    forall k | 0 <= k < |now| && OutsideCells(font, longer, stride, k)
      ensures now[k] == before[k]
    {
      assert longer[|cells|] == cell;
      assert forall m :: 0 <= m < |cells| ==> longer[m] == cells[m];
      LayerPlaces(font, cell, Visible(was), stride, background, k);
    }
  }

  method PrintCell(display: VipFrameReader, x: int, y: int, color: word, c: char, background: word, font: Font,
                   ghost cells: seq<Cell>, ghost before: Picture)
    requires display.Valid() && display.colorDepth == 32 && WellFormedFont(font)
    requires Printed(display.GetDrawFrame()[..], before, font, cells, display.width, background)
    requires CellInFrame(font, Cell(x, y, c, color), display.width, |before|)
    modifies display.GetDrawFrame()
    ensures display.Valid()
    ensures Printed(display.GetDrawFrame()[..], before, font, cells + [Cell(x, y, c, color)], display.width, background)
  {
    ghost var was := display.GetDrawFrame()[..];
    PrintChar(display, x, y, color, c, background, font);
    PrintedThen(display.GetDrawFrame()[..], was, before, font, cells, Cell(x, y, c, color), display.width, background);
  }

  /** The loop over `TAB_SPACING`, which fills one dash after the other unless the background is clear. */
  method PrintTab(display: VipFrameReader, x: int, y: int, background: word, font: Font,
                  ghost cells: seq<Cell>, ghost before: Picture) returns (horiz: int)
    requires display.Valid() && display.colorDepth == 32 && WellFormedFont(font)
    requires Printed(display.GetDrawFrame()[..], before, font, cells, display.width, background)
    requires background != CLEAR_BACKGROUND ==>
               AllInFrame(font, Dashes(x, y, GlyphOf(font, '-').width, background, TAB_SPACING), display.width,
                          |before|)
    modifies display.GetDrawFrame()
    ensures display.Valid() && horiz == x + Advance(font, '\t')
    ensures Printed(display.GetDrawFrame()[..], before, font,
                    if background == CLEAR_BACKGROUND then cells
                    else cells + Dashes(x, y, GlyphOf(font, '-').width, background, TAB_SPACING),
                    display.width, background)
  {
    hide Printed;
    ghost var w := GlyphOf(font, '-').width;
    ghost var printed := cells;
    horiz := x;
    for tab := 0 to TAB_SPACING
      invariant display.Valid() && horiz == x + tab * w
      invariant printed == if background == CLEAR_BACKGROUND then cells else cells + Dashes(x, y, w, background, tab)
      invariant Printed(display.GetDrawFrame()[..], before, font, printed, display.width, background)
    {
      if background != CLEAR_BACKGROUND {
        assert Dashes(x, y, w, background, TAB_SPACING)[tab] == Cell(horiz, y, '-', background);
        PrintCell(display, horiz, y, background, '-', background, font, printed, before);
        printed := printed + [Cell(horiz, y, '-', background)];
        assert Dashes(x, y, w, background, tab + 1)
            == Dashes(x, y, w, background, tab) + [Cell(horiz, y, '-', background)];
      }
      horiz := horiz + font['-' as int - 33].width;
    }
  }

  /** The loop body of `vid_print_string_alpha` for one character: its cells, and the new place of the cursor. */
  method PrintNext(display: VipFrameReader, horiz0: int, horiz: int, vert: int, color: word, background: word,
                   font: Font, c: char, ghost cells: seq<Cell>, ghost before: Picture)
    returns (newHoriz: int, newVert: int)
    requires display.Valid() && display.colorDepth == 32 && WellFormedFont(font) && CanPrint(font, c)
    requires Printed(display.GetDrawFrame()[..], before, font, cells, display.width, background)
    requires AllInFrame(font, CharCells(font, c, horiz, vert, color, background), display.width, |before|)
    modifies display.GetDrawFrame()
    ensures display.Valid()
    ensures Printed(display.GetDrawFrame()[..], before, font,
                    cells + CharCells(font, c, horiz, vert, color, background), display.width, background)
    ensures newHoriz == if c == '\n' then horiz0 else horiz + Advance(font, c)
    ensures newVert == if c == '\n' then vert + GlyphOf(font, '|').height else vert
  {
    hide Printed;
    ghost var next := CharCells(font, c, horiz, vert, color, background);
    assert next == [] ==> cells + next == cells;
    newHoriz, newVert := horiz, vert;
    if c == '\n' {
      newHoriz := horiz0;
      newVert := vert + font['|' as int - 33].height;
    } else if c == ' ' {
      if background != CLEAR_BACKGROUND {
        assert CellInFrame(font, next[0], display.width, |before|);
        PrintCell(display, horiz, vert, background, '-', background, font, cells, before);
      }
      newHoriz := horiz + font[45 - 33].width;
    } else if c == '\t' {
      newHoriz := PrintTab(display, horiz, vert, background, font, cells, before);
    } else {
      assert CellInFrame(font, next[0], display.width, |before|);
      PrintCell(display, horiz, vert, color, c, background, font, cells, before);
      newHoriz := horiz + font[c as int - 33].width;
    }
  }

  /** `vid_print_string_alpha`. The loop moves a cursor; every cell lands where the layout measures it. */
  method PrintString(display: VipFrameReader, horiz0: int, vert0: int, color: word, background: word, font: Font,
                     s: string)
    requires display.Valid() && display.colorDepth == 32 && WellFormedFont(font) && Printable(font, s)
    requires AllInFrame(font, Cells(font, s, |s|, horiz0, vert0, color, background), display.width,
                        display.GetDrawFrame().Length)
    modifies display.GetDrawFrame()
    ensures display.Valid()
    ensures Printed(display.GetDrawFrame()[..], old(display.GetDrawFrame()[..]), font,
                    Cells(font, s, |s|, horiz0, vert0, color, background), display.width, background)
  {
    hide Printed, Cells, CharCells, CharX, CharY, AllInFrame;
    ghost var before := display.GetDrawFrame()[..];
    NothingPrinted(before, font, display.width, background);
    LayoutStarts(font, s, horiz0, vert0, color, background);
    var horiz, vert, i := horiz0, vert0, 0;
    while i < |s|
      invariant 0 <= i <= |s| && display.Valid()
      invariant horiz == CharX(font, s, i, horiz0) && vert == CharY(font, s, i, vert0)
      invariant Printed(display.GetDrawFrame()[..], before, font,
                        Cells(font, s, i, horiz0, vert0, color, background), display.width, background)
    {
      CursorMoves(font, s, i, horiz0, vert0);
      NextInFrame(font, s, i, horiz0, vert0, color, background, display.width, |before|);
      horiz, vert := PrintNext(display, horiz0, horiz, vert, color, background, font, s[i],
                               Cells(font, s, i, horiz0, vert0, color, background), before);
      i := i + 1;
    }
  }

  lemma CellsStep(font: Font, s: string, i: nat, x0: int, y0: int, color: word, background: word)
    requires WellFormedFont(font) && Printable(font, s) && i < |s|
    ensures Cells(font, s, i + 1, x0, y0, color, background)
            == Cells(font, s, i, x0, y0, color, background)
               + CharCells(font, s[i], CharX(font, s, i, x0), CharY(font, s, i, y0), color, background)
  {
    hide CharX, CharY, CharCells;
  }

  lemma LayoutStarts(font: Font, s: string, x0: int, y0: int, color: word, background: word)
    requires WellFormedFont(font) && Printable(font, s)
    ensures CharX(font, s, 0, x0) == x0 && CharY(font, s, 0, y0) == y0
    ensures Cells(font, s, 0, x0, y0, color, background) == []
  {
  }

  lemma NothingPrinted(before: Picture, font: Font, stride: int, background: word)
    requires WellFormedFont(font)
    ensures Printed(before, before, font, [], stride, background)
  {
  }

  /** The cells of one character are in the frame when all cells of the string are. */
  lemma NextInFrame(font: Font, s: string, i: nat, x0: int, y0: int, color: word, background: word, stride: int,
                    frameLen: int)
    requires WellFormedFont(font) && Printable(font, s) && i < |s|
    requires AllInFrame(font, Cells(font, s, |s|, x0, y0, color, background), stride, frameLen)
    ensures AllInFrame(font, CharCells(font, s[i], CharX(font, s, i, x0), CharY(font, s, i, y0), color, background),
                       stride, frameLen)
    ensures Cells(font, s, i + 1, x0, y0, color, background)
            == Cells(font, s, i, x0, y0, color, background)
               + CharCells(font, s[i], CharX(font, s, i, x0), CharY(font, s, i, y0), color, background)
  {
    hide CharX, CharY, CharCells, CellInFrame, Cells;
    var cells, all := Cells(font, s, i, x0, y0, color, background), Cells(font, s, |s|, x0, y0, color, background);
    var next := CharCells(font, s[i], CharX(font, s, i, x0), CharY(font, s, i, y0), color, background);
    CellsGrow(font, s, i + 1, |s|, x0, y0, color, background);
    CellsStep(font, s, i, x0, y0, color, background);
    assert forall k :: 0 <= k < |next| ==> next[k] == all[|cells| + k];
  }

  /** Characters `vid_string_pixel_length_alpha` finds in the font; it knows neither tab nor newline. */
  predicate Measurable(font: Font, c: char) { c == ' ' || HasGlyph(font, c) }

  /** `vid_string_pixel_length_alpha`; no length where the source would look outside the font. */
  method StringPixelLength(font: Font, s: string) returns (length: Option<int>)
    requires WellFormedFont(font)
    ensures length.Some? <==> forall i :: 0 <= i < |s| ==> Measurable(font, s[i])
    ensures length.Some? ==> Printable(font, s) && '\n' !in s && length.value == Width(font, s)
  {
    var i, sum := 0, 0;
    while i < |s|
      invariant 0 <= i <= |s|
      invariant forall j :: 0 <= j < i ==> Measurable(font, s[j])
      invariant sum == Width(font, s[..i])
    {
      assert s[..i + 1][..i] == s[..i];
      if s[i] == ' ' {
        sum := sum + font[45 - 33].width;
      } else {
        if !HasGlyph(font, s[i]) {
          return None;
        }
        sum := sum + font[s[i] as int - 33].width;
      }
      i := i + 1;
    }
    assert s[..|s|] == s;
    return Some(sum);
  }
}
