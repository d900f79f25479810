/** simple_text.c: alpha-blended strings on a display of colour depth 32. */
module SimpleText {
  import opened Memory
  import opened Raster
  import opened Overlays
  import opened FrameReader
  import opened Channels

  /** `abc_font_struct`: the bounds of a glyph and its alpha map, line after line. */
  datatype Glyph = Glyph(width: nat, height: nat, alpha: seq<byte>)

  /** Glyphs of the characters from 33 on. */
  type Font = seq<Glyph>

  const CLEAR_BACKGROUND: word := 0xffffffff
  const TAB_SPACING := 2

  ghost predicate WellFormedFont(font: Font) {
    && '|' as int - 33 < |font| <= 128 - 33
    && forall g :: g in font ==> g.width * g.height <= |g.alpha|
  }

  /** Characters that have a glyph. */
  predicate HasGlyph(font: Font, c: char) { 0 <= c as int - 33 < |font| }

  function GlyphOf(font: Font, c: char): Glyph
    requires HasGlyph(font, c)
  {
    font[c as int - 33]
  }

  /** Characters `vid_print_string_alpha` can print; the NUL that ends a string is not one of them. */
  predicate CanPrint(font: Font, c: char) { c == '\n' || c == ' ' || c == '\t' || HasGlyph(font, c) }

  predicate Printable(font: Font, s: string) { forall i :: 0 <= i < |s| ==> CanPrint(font, s[i]) }

  // ----- one character -----

  function ChannelsOf(color: word): Channels { Channels(RedOf(color), GreenOf(color), BlueOf(color)) }

  /** A text pixel: the channel-wise blend of text and background. */
  function BlendedColor(text: word, background: word, alpha: byte): word {
    var ch := BlendChannels(ChannelsOf(text), ChannelsOf(background), alpha);
    Rgb(ch.red, ch.green, ch.blue)
  }

  /** The word shows the text colour over the other, channel by channel. */
  predicate ShowsMean(shown: word, text: word, under: word, alpha: byte) {
    && IsMean(RedOf(shown), RedOf(text), RedOf(under), alpha)
    && IsMean(GreenOf(shown), GreenOf(text), GreenOf(under), alpha)
    && IsMean(BlueOf(shown), BlueOf(text), BlueOf(under), alpha)
  }

  lemma BlendedColorShowsMean(text: word, under: word, alpha: byte)
    ensures ShowsMean(BlendedColor(text, under, alpha), text, under, alpha)
  {
    hide BlendByte, IsMean, Rgb, RedOf, GreenOf, BlueOf;
    var ch := BlendChannels(ChannelsOf(text), ChannelsOf(under), alpha);
    RgbChannels(ch.red, ch.green, ch.blue);
    BlendByteIsMean(RedOf(text), RedOf(under), alpha);
    BlendByteIsMean(GreenOf(text), GreenOf(under), alpha);
    BlendByteIsMean(BlueOf(text), BlueOf(under), alpha);
  }

  /** What shows of a word has the word's channels. */
  lemma LowShowsMean(w: word, text: word, under: word, alpha: byte)
    ensures ShowsMean(Low24(w), text, under, alpha) <==> ShowsMean(w, text, under, alpha)
    ensures ShowsMean(w, text, Low24(under), alpha) <==> ShowsMean(w, text, under, alpha)
  {
    hide IsMean;
    LowOfLow(w);
    LowOfLow(under);
  }

  lemma AlphaInside(g: Glyph, row: int, col: int)
    requires g.width * g.height <= |g.alpha| && 0 <= row < g.height && 0 <= col < g.width
    ensures 0 <= Slot(row, col, g.width) < |g.alpha|
  {
    SlotIsActive(row, col, g.width, g.height, g.width);
    assert Extent(g.width, g.height, g.width) == g.width * g.height;
  }

  predicate CellFits(frameLen: int, g: Glyph, base: int, stride: int) {
    InFrame(frameLen, base, g.width, g.height, stride)
  }

  /** What a glyph with its first pixel at word `base` makes visible on a view of the frame. */
  function CellLayer(view: Picture, g: Glyph, base: int, stride: int, color: word, background: word): Layer
    requires g.width * g.height <= |g.alpha| && CellFits(|view|, g, base, stride)
  {
    map k | base <= k < base + Extent(g.width, g.height, stride) && InRect(k, base, g.width, g.height, stride)
      :: CellColor(view, g, base, stride, color, background, k)
  }

  function CellColor(view: Picture, g: Glyph, base: int, stride: int, color: word, background: word, k: int): word
    requires g.width * g.height <= |g.alpha| && CellFits(|view|, g, base, stride)
    requires InRect(k, base, g.width, g.height, stride)
  {
    ActiveIsSlot(k - base, g.width, g.height, stride);
    AlphaInside(g, (k - base) / stride, (k - base) % stride);
    BlendedColor(color, if background == CLEAR_BACKGROUND then view[k] else background,
                 g.alpha[Slot((k - base) / stride, (k - base) % stride, g.width)])
  }

  lemma ChannelsInMemory(color: word)
    ensures SeperateColorChannels(32, Bytes32(color)).0 == ChannelsOf(color)
  {
  }

  lemma ColorInMemory(ch: Channels, was: word)
    ensures Low24(Load32(MergeColorChannels(32, ch, Bytes32(was)).0, 0)) == Rgb(ch.red, ch.green, ch.blue)
  {
    var m := MergeColorChannels(32, ch, Bytes32(was)).0;
    assert m[0] == ch.blue && m[1] == ch.green && m[2] == ch.red;
    ColorOfWord(m[0], m[1], m[2], m[3]);
  }

  /** From the word of the frame to the one written over it: `alpha_blending` with its two sources of background,
      then `merge_color_channels` into the three low bytes of `new_color`. */
  method BlendPixel(depth: int, color: word, background: word, frameWord: word, alpha: byte, newColor: word)
    returns (written: word)
    requires depth == 32
    ensures Low24(written)
            == BlendedColor(color, if background == CLEAR_BACKGROUND then frameWord else background, alpha)
    ensures ShowsMean(written, color, if background == 0xffffffff then frameWord else background, alpha)
  {
    hide ShowsMean, BlendedColor, ChannelsOf;
    hide AlphaBlending, BlendChannels, MergeColorChannels, SeperateColorChannels, Low24, Rgb, Load32, Bytes32;
    ChannelsInMemory(color);
    ChannelsInMemory(background);
    var original := SeperateColorChannels(depth, Bytes32(color)).0;
    var under;
    if background == CLEAR_BACKGROUND {
      under := ReadFromFrame(frameWord);
    } else {
      under := SeperateColorChannels(depth, Bytes32(background)).0;
    }
    var blended := AlphaBlending(depth, original, under, alpha).0;
    BlendWritten(original, under, alpha, newColor);
    written := Load32(MergeColorChannels(depth, blended, Bytes32(newColor)).0, 0);
    BlendedColorOf(color, if background == CLEAR_BACKGROUND then frameWord else background, alpha);
    BlendedColorShowsMean(color, if background == CLEAR_BACKGROUND then frameWord else background, alpha);
    LowShowsMean(written, color, if background == CLEAR_BACKGROUND then frameWord else background, alpha);
  }

  lemma BlendedColorOf(text: word, under: word, alpha: byte)
    ensures var ch := BlendChannels(ChannelsOf(text), ChannelsOf(under), alpha);
            BlendedColor(text, under, alpha) == Rgb(ch.red, ch.green, ch.blue)
  {
  }

  lemma BlendWritten(text: Channels, under: Channels, alpha: byte, newColor: word)
    ensures var ch := BlendChannels(text, under, alpha);
            Low24(Load32(MergeColorChannels(32, AlphaBlending(32, text, under, alpha).0, Bytes32(newColor)).0, 0))
            == Rgb(ch.red, ch.green, ch.blue)
  {
    ClipIsIdle(32, text, under, alpha);
    ColorInMemory(BlendChannels(text, under, alpha), newColor);
  }

  /** White at alpha 64 on the colour of the modulation buttons. */
  lemma WhiteOnBlue()
    ensures BlendedColor(0xffffff, 0x0066cc, 64) == 0x408cd8
  {
    BlendsTo(0xff, 0x00, 64, 0x40);
    BlendsTo(0xff, 0x66, 64, 0x8c);
    BlendsTo(0xff, 0xcc, 64, 0xd8);
  }

  lemma BlendsTo(f: byte, b: byte, alpha: byte, r: byte)
    requires IsMean(r, f, b, alpha)
    ensures BlendByte(f, b, alpha) == r
  {
    hide BlendByte, Value;
    BlendByteIsMean(f, b, alpha);
    OneMean(Value(f) * Value(alpha) + Value(b) * (255 - Value(alpha)), Value(r), Value(BlendByte(f, b, alpha)));
    SameValue(BlendByte(f, b, alpha), r);
  }

  lemma OneMean(sum: int, x: int, y: int)
    requires 255 * x <= sum < 255 * x + 255 && 255 * y <= sum < 255 * y + 255
    ensures x == y
  {
  }

  /** The channels `read_from_frame` cuts out of a frame word at depth 32. */
  function ReadFromFrame(temp: word): (ch: Channels)
    ensures ch == ChannelsOf(temp)
  {
    Channels(((temp >> 16) & 0xff) as byte, ((temp >> 8) & 0xff) as byte, (temp & 0xff) as byte)
  }

  /** The frame after the glyph's pixels below `n` are drawn: visible colours painted, other words as they were. */
  ghost predicate DrawnBelow(n: int, now: Picture, before: Picture, layer: Layer) {
    && |now| == |before|
    && Visible(now) == PaintedBelow(n, Visible(before), layer)
    && forall k :: 0 <= k < |now| && !(k < n && k in layer) ==> now[k] == before[k]
  }

  /** The word of the pixel at (row, col) is the first one not drawn yet, and is due this colour. */
  lemma PixelDue(g: Glyph, base: int, stride: int, color: word, background: word, row: int, col: int,
                 was: Picture, before: Picture)
    requires g.width * g.height <= |g.alpha| && CellFits(|before|, g, base, stride)
    requires 0 <= row < g.height && 0 <= col < g.width
    requires DrawnBelow(base + Slot(row, col, stride), was, before,
                        CellLayer(Visible(before), g, base, stride, color, background))
    ensures 0 <= base + Slot(row, col, stride) < |was| && 0 <= Slot(row, col, g.width) < |g.alpha|
    ensures var layer := CellLayer(Visible(before), g, base, stride, color, background);
            && base + Slot(row, col, stride) in layer
            && layer[base + Slot(row, col, stride)]
               == BlendedColor(color, if background == CLEAR_BACKGROUND
                                      then was[base + Slot(row, col, stride)] else background,
                               g.alpha[Slot(row, col, g.width)])
  {
    hide BlendedColor, Low24;
    var at := base + Slot(row, col, stride);
    SlotIsActive(row, col, g.width, g.height, stride);
    AlphaInside(g, row, col);
    assert InRect(at, base, g.width, g.height, stride);
    BlendOfVisible(color, before[at], g.alpha[Slot(row, col, g.width)]);
  }

  lemma WordDrawn(n: int, was: Picture, before: Picture, layer: Layer, drawn: word)
    requires DrawnBelow(n, was, before, layer)
    requires 0 <= n < |was| && n in layer && Low24(drawn) == layer[n]
    ensures DrawnBelow(n + 1, was[n := drawn], before, layer)
  {
    var now := was[n := drawn];
    assert Visible(now) == Visible(was)[n := layer[n]];
  }

  lemma LowOfLow(w: word)
    ensures ChannelsOf(Low24(w)) == ChannelsOf(w)
  {
  }

  lemma BlendOfVisible(text: word, background: word, alpha: byte)
    ensures BlendedColor(text, Low24(background), alpha) == BlendedColor(text, background, alpha)
  {
    LowOfLow(background);
  }

  lemma GlyphLineDone(g: Glyph, base: int, stride: int, color: word, background: word, row: int, now: Picture,
                      before: Picture)
    requires g.width * g.height <= |g.alpha| && CellFits(|before|, g, base, stride) && 0 <= row < g.height
    requires DrawnBelow(base + Slot(row, g.width, stride), now, before,
                        CellLayer(Visible(before), g, base, stride, color, background))
    ensures DrawnBelow(base + Slot(row + 1, 0, stride), now, before,
                       CellLayer(Visible(before), g, base, stride, color, background))
  {
    hide CellColor;
    var layer := CellLayer(Visible(before), g, base, stride, color, background);
    forall k | k in layer
      ensures k < base + Slot(row, g.width, stride) <==> k < base + Slot(row + 1, 0, stride)
    {
      PaddingIsEmpty(k - base, row, g.width, g.height, stride);
    }
  }

  /** One pass of the innermost loop, at the first word not drawn yet. */
  method PrintPixel(display: VipFrameReader, horiz: int, vert: int, color: word, background: word, alpha: byte,
                    newColor: word, ghost before: Picture, ghost layer: Layer) returns (written: word)
    requires display.Valid() && display.colorDepth == 32
    requires 0 <= Slot(vert, horiz, display.width) < display.GetDrawFrame().Length
    requires DrawnBelow(Slot(vert, horiz, display.width), display.GetDrawFrame()[..], before, layer)
    requires Slot(vert, horiz, display.width) in layer
    requires layer[Slot(vert, horiz, display.width)]
             == BlendedColor(color, if background == CLEAR_BACKGROUND
                                    then display.GetDrawFrame()[Slot(vert, horiz, display.width)]
                                    else background, alpha)
    modifies display.GetDrawFrame()
    ensures display.Valid()
    ensures DrawnBelow(Slot(vert, horiz, display.width) + 1, display.GetDrawFrame()[..], before, layer)
  {
    ghost var was := display.GetDrawFrame()[..];
    written := BlendPixel(display.colorDepth, color, background,
                          display.GetDrawFrame()[vert * display.width + horiz], alpha, newColor);
    display.SetPixel(horiz, vert, written);
    WordDrawn(Slot(vert, horiz, display.width), was, before, layer, written);
  }

  /** The inner loop of `vid_print_char_alpha`: line `i` of the glyph, whose alpha values start at `alpha0`. */
  method PrintLine(display: VipFrameReader, horiz: int, vert: int, color: word, background: word, g: Glyph, i: int,
                   alpha0: int, newColor0: word, ghost before: Picture) returns (alpha: int, newColor: word)
    requires display.Valid() && display.colorDepth == 32
    requires g.width * g.height <= |g.alpha| && 0 <= i < g.height && alpha0 == Slot(i, 0, g.width)
    requires CellFits(|before|, g, Slot(vert, horiz, display.width), display.width)
    requires DrawnBelow(Slot(vert, horiz, display.width) + Slot(i, 0, display.width),
                        display.GetDrawFrame()[..], before,
                        CellLayer(Visible(before), g, Slot(vert, horiz, display.width), display.width, color,
                                  background))
    modifies display.GetDrawFrame()
    ensures display.Valid() && alpha == Slot(i + 1, 0, g.width)
    ensures DrawnBelow(Slot(vert, horiz, display.width) + Slot(i + 1, 0, display.width),
                       display.GetDrawFrame()[..], before,
                       CellLayer(Visible(before), g, Slot(vert, horiz, display.width), display.width, color,
                                 background))
  {
    hide BlendedColor, Low24, CellLayer, DrawnBelow, Visible, Slot;
    ghost var base := Slot(vert, horiz, display.width);
    ghost var layer := CellLayer(Visible(before), g, base, display.width, color, background);
    alpha, newColor := alpha0, newColor0;
    var j := 0;
    while j < g.width
      invariant 0 <= j <= g.width && alpha == Slot(i, j, g.width)
      invariant display.Valid()
      invariant DrawnBelow(base + Slot(i, j, display.width), display.GetDrawFrame()[..], before, layer)
    {
      RectSlot(horiz, vert, j, i, display.width);
      NextSlot(i, j, display.width);
      NextSlot(i, j, g.width);
      PixelDue(g, base, display.width, color, background, i, j, display.GetDrawFrame()[..], before);
      newColor := PrintPixel(display, horiz + j, vert + i, color, background, g.alpha[alpha], newColor, before, layer);
      alpha := alpha + 1;
      j := j + 1;
    }
    NextSlot(i, 0, g.width);
    GlyphLineDone(g, base, display.width, color, background, i, display.GetDrawFrame()[..], before);
  }

  /** `vid_print_char_alpha` at depth 32. The top byte of `new_color` is never set and stays open. */
  method PrintChar(display: VipFrameReader, horiz: int, vert: int, color: word, c: char, background: word, font: Font)
    requires display.Valid() && display.colorDepth == 32
    requires WellFormedFont(font) && HasGlyph(font, c)
    requires CellFits(display.GetDrawFrame().Length, GlyphOf(font, c), Slot(vert, horiz, display.width), display.width)
    modifies display.GetDrawFrame()
    ensures display.Valid()
    ensures DrawnAll(display.GetDrawFrame()[..], old(display.GetDrawFrame()[..]),
                     CellLayer(Visible(old(display.GetDrawFrame()[..])), GlyphOf(font, c),
                               Slot(vert, horiz, display.width), display.width, color, background))
  {
    hide BlendedColor, Low24, CellColor, Visible;
    var g := font[c as int - 33];
    ghost var before, base := display.GetDrawFrame()[..], Slot(vert, horiz, display.width);
    ghost var layer := CellLayer(Visible(before), g, base, display.width, color, background);
    var newColor: word := *;
    var alpha, i := 0, 0;
    while i < g.height
      invariant 0 <= i <= g.height && alpha == Slot(i, 0, g.width)
      invariant display.Valid()
      invariant DrawnBelow(base + Slot(i, 0, display.width), display.GetDrawFrame()[..], before, layer)
    {
      alpha, newColor := PrintLine(display, horiz, vert, color, background, g, i, alpha, newColor, before);
      i := i + 1;
    }
    GlyphDone(g, base, display.width, display.GetDrawFrame()[..], before, layer);
  }

  /** A drawn layer: the visible colours of its words, and nothing else of the frame, changed. */
  ghost predicate DrawnAll(now: Picture, before: Picture, layer: Layer) {
    && |now| == |before|
    && Visible(now) == Overlay(Visible(before), layer)
    && forall k :: 0 <= k < |now| && k !in layer ==> now[k] == before[k]
  }

  lemma GlyphDone(g: Glyph, base: int, stride: int, now: Picture, before: Picture, layer: Layer)
    requires CellFits(|before|, g, base, stride)
    requires forall k :: k in layer ==> k < base + Extent(g.width, g.height, stride)
    requires DrawnBelow(base + Slot(g.height, 0, stride), now, before, layer)
    requires g.width == 0 || g.height == 0 ==> layer == map[]
    ensures DrawnAll(now, before, layer)
  {
    if 0 < g.width && 0 < g.height {
      ExtentInLines(g.width, g.height, stride);
    }
  }
}
