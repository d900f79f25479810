/** draw_gimps.c: blits of converted images into the word frame buffer. */
module DrawGimps {
  import opened Common
  import opened Memory
  import opened Raster
  import opened Overlays
  import opened FrameReader
  import PixelMaps
  import opened GimpBmp

  /** Colour of pixel `q` of a 32-bit image stored B, G, R, A. */
  function RealColor(src: seq<byte>, q: int): word
    requires 0 <= q && 4 * q + 4 <= |src|
  {
    Rgb(src[4 * q + 2], src[4 * q + 1], src[4 * q])
  }

  ghost predicate HasImage(src: seq<byte>, w: int, h: int) {
    0 < w && 0 < h ==> 4 * (w * h) <= |src|
  }

  lemma SourcePixelInside(src: seq<byte>, w: int, h: int, row: int, col: int)
    requires HasImage(src, w, h) && 0 <= row < h && 0 <= col < w
    ensures 0 <= Slot(row, col, w) && 4 * Slot(row, col, w) + 4 <= |src|
  {
    SlotIsActive(row, col, w, h, w);
    assert Extent(w, h, w) == w * h;
  }

  /** The image pixel shown in slot `p` of a drawn rectangle. */
  function PixelColor(src: seq<byte>, w: int, h: int, drawnW: int, drawnH: int, stride: int, p: int): word
    requires HasImage(src, w, h) && drawnW <= w && drawnH <= h && Active(p, drawnW, drawnH, stride)
  {
    ActiveIsSlot(p, drawnW, drawnH, stride);
    SourcePixelInside(src, w, h, p / stride, p % stride);
    RealColor(src, Slot(p / stride, p % stride, w))
  }

  /** The layer a blit draws: the clipped rectangle, without the pixels of the transparent colour if there is one. */
  function BlitLayer(src: seq<byte>, w: int, h: int, drawnW: int, drawnH: int, stride: int, base: int,
                     transparent: Option<word>): Layer
    requires HasImage(src, w, h) && drawnW <= w && drawnH <= h
  {
    map k | base <= k < base + Extent(drawnW, drawnH, stride)
            && InRect(k, base, drawnW, drawnH, stride)
            && transparent != Some(PixelColor(src, w, h, drawnW, drawnH, stride, k - base))
      :: PixelColor(src, w, h, drawnW, drawnH, stride, k - base)
  }

  // ----- the loops: the layer is painted below word `n` -----

  /** Word reached when the scan of the source stands at (row, col). */
  function Reached(base: int, row: int, col: int, drawnW: int, drawnH: int, stride: int): int {
    if row < drawnH then base + Slot(row, Min(col, drawnW), stride) else base + Slot(drawnH, 0, stride)
  }

  lemma PixelPainted(src: seq<byte>, w: int, h: int, drawnW: int, drawnH: int, stride: int, base: int,
                     transparent: Option<word>, row: int, col: int, was: Picture, before: Picture)
    requires HasImage(src, w, h) && drawnW <= w && drawnH <= h
    requires InFrame(|before|, base, drawnW, drawnH, stride)
    requires 0 <= row < drawnH && 0 <= col < drawnW
    requires was == PaintedBelow(Reached(base, row, col, drawnW, drawnH, stride), before,
                                 BlitLayer(src, w, h, drawnW, drawnH, stride, base, transparent))
    ensures 0 <= Slot(row, col, w) && 4 * Slot(row, col, w) + 4 <= |src|
    ensures 0 <= base + Slot(row, col, stride) < |before|
    ensures var color := RealColor(src, Slot(row, col, w));
            PaintedBelow(Reached(base, row, col + 1, drawnW, drawnH, stride), before,
                         BlitLayer(src, w, h, drawnW, drawnH, stride, base, transparent))
            == if transparent == Some(color) then was else was[base + Slot(row, col, stride) := color]
  {
    SlotIsActive(row, col, drawnW, drawnH, stride);
    SourcePixelInside(src, w, h, row, col);
    assert Reached(base, row, col + 1, drawnW, drawnH, stride) == base + Slot(row, col, stride) + 1;
    assert InRect(base + Slot(row, col, stride), base, drawnW, drawnH, stride);
  }

  lemma RowPainted(src: seq<byte>, w: int, h: int, drawnW: int, drawnH: int, stride: int, base: int,
                   transparent: Option<word>, row: int, before: Picture)
    requires HasImage(src, w, h) && drawnW <= w && drawnH <= h
    requires InFrame(|before|, base, drawnW, drawnH, stride)
    requires 0 <= row < h
    ensures var layer := BlitLayer(src, w, h, drawnW, drawnH, stride, base, transparent);
            PaintedBelow(Reached(base, row, Positive(w), drawnW, drawnH, stride), before, layer)
            == PaintedBelow(Reached(base, row + 1, 0, drawnW, drawnH, stride), before, layer)
  {
    if row < drawnH {
      forall k | InRect(k, base, drawnW, drawnH, stride)
        ensures k - base < Slot(row, drawnW, stride) <==> k - base < Slot(row + 1, 0, stride)
      {
        PaddingIsEmpty(k - base, row, drawnW, drawnH, stride);
      }
    }
  }

  lemma AllPainted(src: seq<byte>, w: int, h: int, drawnW: int, drawnH: int, stride: int, base: int,
                   transparent: Option<word>, before: Picture)
    requires HasImage(src, w, h) && drawnW <= w && drawnH <= h
    requires InFrame(|before|, base, drawnW, drawnH, stride)
    ensures var layer := BlitLayer(src, w, h, drawnW, drawnH, stride, base, transparent);
            PaintedBelow(Reached(base, Positive(h), 0, drawnW, drawnH, stride), before, layer)
            == Overlay(before, layer)
    ensures var layer := BlitLayer(src, w, h, drawnW, drawnH, stride, base, transparent);
            PaintedBelow(Reached(base, 0, 0, drawnW, drawnH, stride), before, layer) == before
  {
    if 0 < drawnW && 0 < drawnH {
      ExtentInLines(drawnW, drawnH, stride);
    }
  }

  /** The four bytes of the next pixel go through `char color[4]`; the colour is made of the first three. */
  method ReadColor(src: seq<byte>, at: int) returns (realColor: word, next: int)
    requires 0 <= at && at + 4 <= |src|
    ensures realColor == Rgb(src[at + 2], src[at + 1], src[at])
    ensures next == at + 4
  {
    var color := new byte[4];
    next := at;
    for i := 0 to 4
      invariant next == at + i
      invariant forall n :: 0 <= n < i ==> color[n] == src[at + n]
    {
      color[i] := src[next];
      next := next + 1;
    }
    realColor := MaskedColor(color[2], color[1], color[0]);
    RgbChannels(color[2], color[1], color[0]);
  }

  /** `((_red<<16)|(_green<<8)|_blue) & 0xffffff`. */
  function MaskedColor(red: byte, green: byte, blue: byte): word {
    Low24(((red as word) << 16) | ((green as word) << 8) | (blue as word))
  }

  /** `AsVidCopyImageToBuffer2` (no transparent colour) and `AsVidCopyImageToBuffer3`: pixel by pixel, clipped to the
      first `wFit + 1` columns and `hFit + 1` rows. */
  method CopyImageToBuffer(dest: array<word>, src: seq<byte>, destWidth: int, srcWidth: int, srcHeight: int,
                           x0: int, y0: int, wFit: int, hFit: int, transparent: Option<word>)
    requires HasImage(src, srcWidth, srcHeight)
    requires InFrame(dest.Length, Slot(y0, x0, destWidth), Min(srcWidth, wFit + 1), Min(srcHeight, hFit + 1), destWidth)
    modifies dest
    ensures dest[..] == Overlay(old(dest[..]),
                                BlitLayer(src, srcWidth, srcHeight, Min(srcWidth, wFit + 1), Min(srcHeight, hFit + 1),
                                          destWidth, Slot(y0, x0, destWidth), transparent))
  {
    hide Slot, BlitLayer, Reached, PaintedBelow, Overlay;
    ghost var before := dest[..];
    ghost var w, h, base := Min(srcWidth, wFit + 1), Min(srcHeight, hFit + 1), Slot(y0, x0, destWidth);
    ghost var layer := BlitLayer(src, srcWidth, srcHeight, w, h, destWidth, base, transparent);
    AllPainted(src, srcWidth, srcHeight, w, h, destWidth, base, transparent, before);
    FirstSlot(Positive(srcWidth));
    var at, y := 0, 0;
    while y < srcHeight
      invariant 0 <= y <= Positive(srcHeight)
      invariant at == 4 * Slot(y, 0, Positive(srcWidth))
      invariant dest[..] == PaintedBelow(Reached(base, y, 0, w, h, destWidth), before, layer)
    {
      var x := 0;
      while x < srcWidth
        invariant 0 <= x <= Positive(srcWidth)
        invariant at == 4 * Slot(y, x, Positive(srcWidth))
        invariant dest[..] == PaintedBelow(Reached(base, y, x, w, h, destWidth), before, layer)
      {
        SourcePixelInside(src, srcWidth, srcHeight, y, x);
        NextSlot(y, x, srcWidth);
        var realColor;
        realColor, at := ReadColor(src, at);
        if y <= hFit && x <= wFit {
          PixelPainted(src, srcWidth, srcHeight, w, h, destWidth, base, transparent, y, x, dest[..], before);
          if transparent != Some(realColor) {
            RectSlot(x0, y0, x, y, destWidth);
            dest[Slot(y + y0, x + x0, destWidth)] := realColor;
          }
        } else {
          PixelClipped(base, y, x, w, h, destWidth);
        }
        x := x + 1;
      }
      NextSlot(y, 0, Positive(srcWidth));
      RowPainted(src, srcWidth, srcHeight, w, h, destWidth, base, transparent, y, before);
      y := y + 1;
    }
  }

  lemma FirstSlot(stride: int)
    ensures Slot(0, 0, stride) == 0
  {
  }

  /** The scan of clipped pixels stands still in the frame. */
  lemma PixelClipped(base: int, row: int, col: int, drawnW: int, drawnH: int, stride: int)
    requires drawnH <= row || drawnW <= col
    ensures Reached(base, row, col + 1, drawnW, drawnH, stride) == Reached(base, row, col, drawnW, drawnH, stride)
  {
  }

  // ----- the row-by-row blit -----

  /** Layer of the blit that copies whole words, alpha byte included, to the top left of the frame. */
  function RowsLayer(src: seq<byte>, w: int, h: int, stride: int): Layer
    requires HasImage(src, w, h)
  {
    map k | 0 <= k < Extent(w, h, stride) && InRect(k, 0, w, h, stride)
      :: (ActiveIsSlot(k, w, h, stride);
          SourcePixelInside(src, w, h, k / stride, k % stride);
          Load32(src, 4 * Slot(k / stride, k % stride, w)))
  }

  /** `memcpy` of `n` words to word `at`, from bytes `from` on. */
  method CopyWords(dest: array<word>, at: int, src: seq<byte>, from: int, n: int)
    requires 0 <= n
    requires 0 < n ==> 0 <= at <= dest.Length - n && 0 <= from <= |src| - 4 * n
    modifies dest
    ensures forall k :: 0 <= k < dest.Length ==>
              dest[k] == if at <= k < at + n then Load32(src, from + 4 * (k - at)) else old(dest[k])
  {
    forall k | at <= k < at + n {
      dest[k] := Load32(src, from + 4 * (k - at));
    }
  }

  lemma RowOfWords(src: seq<byte>, w: int, h: int, stride: int, row: int, was: Picture, now: Picture, before: Picture)
    requires HasImage(src, w, h) && 0 <= w && 0 <= row < h
    requires InFrame(|before|, 0, w, h, stride)
    requires was == PaintedBelow(Slot(row, 0, stride), before, RowsLayer(src, w, h, stride))
    requires |now| == |was|
    requires 0 < w ==> 0 <= 4 * Slot(row, 0, w) <= |src| - 4 * w
    requires forall k :: 0 <= k < |now| ==>
               now[k] == if 0 < w && Slot(row, 0, stride) <= k < Slot(row, w, stride)
                         then Load32(src, 4 * Slot(row, 0, w) + 4 * (k - Slot(row, 0, stride))) else was[k]
    ensures now == PaintedBelow(Slot(row + 1, 0, stride), before, RowsLayer(src, w, h, stride))
  {
    forall k | 0 <= k < |now|
      ensures now[k] == PaintedBelow(Slot(row + 1, 0, stride), before, RowsLayer(src, w, h, stride))[k]
    {
      if 0 < w && Slot(row, 0, stride) <= k < Slot(row, w, stride) {
        SlotIsActive(row, k - Slot(row, 0, stride), w, h, stride);
        assert InRect(k, 0, w, h, stride);
      } else if InRect(k, 0, w, h, stride) {
        PaddingIsEmpty(k, row, w, h, stride);
      }
    }
  }

  lemma RowInside(src: seq<byte>, w: int, h: int, stride: int, row: int, frameLen: int)
    requires HasImage(src, w, h) && 0 < w && 0 <= row < h
    requires InFrame(frameLen, 0, w, h, stride)
    ensures 0 <= 4 * Slot(row, 0, w) <= |src| - 4 * w
    ensures 0 <= Slot(row, 0, stride) <= frameLen - w
  {
    SourcePixelInside(src, w, h, row, w - 1);
    SlotIsActive(row, w - 1, w, h, stride);
    ProductsInOrder(0, row, w);
    ProductsInOrder(0, row, stride);
  }

  lemma NoRowPainted(before: Picture, src: seq<byte>, w: int, h: int, stride: int)
    requires HasImage(src, w, h)
    ensures PaintedBelow(Slot(0, 0, stride), before, RowsLayer(src, w, h, stride)) == before
  {
  }

  lemma AllRowsPainted(before: Picture, src: seq<byte>, w: int, h: int, stride: int)
    requires HasImage(src, w, h) && InFrame(|before|, 0, w, h, stride)
    ensures PaintedBelow(Slot(Positive(h), 0, stride), before, RowsLayer(src, w, h, stride))
            == Overlay(before, RowsLayer(src, w, h, stride))
  {
    if 0 < w && 0 < h {
      ExtentInLines(w, h, stride);
    }
  }

  /** `AsVidCopyImageToBuffer`. */
  method CopyRowsToBuffer(dest: array<word>, src: seq<byte>, destWidth: int, srcWidth: int, srcHeight: int)
    requires HasImage(src, srcWidth, srcHeight) && 0 <= srcWidth
    requires InFrame(dest.Length, 0, srcWidth, srcHeight, destWidth)
    modifies dest
    ensures dest[..] == Overlay(old(dest[..]), RowsLayer(src, srcWidth, srcHeight, destWidth))
  {
    hide RowsLayer;
    ghost var before := dest[..];
    ghost var layer := RowsLayer(src, srcWidth, srcHeight, destWidth);
    var to, from, y := 0, 0, 0;
    NoRowPainted(before, src, srcWidth, srcHeight, destWidth);
    while y < srcHeight
      invariant 0 <= y <= Positive(srcHeight)
      invariant to == Slot(y, 0, destWidth) && from == 4 * Slot(y, 0, srcWidth)
      invariant dest[..] == PaintedBelow(Slot(y, 0, destWidth), before, layer)
    {
      ghost var was := dest[..];
      if 0 < srcWidth {
        RowInside(src, srcWidth, srcHeight, destWidth, y, dest.Length);
      }
      CopyWords(dest, to, src, from, srcWidth);
      RowOfWords(src, srcWidth, srcHeight, destWidth, y, was, dest[..], before);
      from := from + srcWidth * 4;
      to := to + destWidth;
      y := y + 1;
    }
    AllRowsPainted(before, src, srcWidth, srcHeight, destWidth);
  }

  /** The row copy leaves in every word of the image its four bytes, alpha included. */
  lemma RowCopyBytes(before: Picture, src: seq<byte>, w: int, h: int, stride: int, row: int, col: int)
    requires HasImage(src, w, h) && InFrame(|before|, 0, w, h, stride) && 0 <= row < h && 0 <= col < w
    ensures var at, q := Slot(row, col, stride), Slot(row, col, w);
            && 0 <= at < |before| && 0 <= q && 4 * q + 4 <= |src|
            && Bytes32(Overlay(before, RowsLayer(src, w, h, stride))[at])
               == [src[4 * q], src[4 * q + 1], src[4 * q + 2], src[4 * q + 3]]
  {
    hide Bytes32, Word;
    SlotIsActive(row, col, w, h, stride);
    SourcePixelInside(src, w, h, row, col);
    var q := Slot(row, col, w);
    BytesOfWord(src[4 * q], src[4 * q + 1], src[4 * q + 2], src[4 * q + 3]);
    assert InRect(Slot(row, col, stride), 0, w, h, stride);
  }

  /** The pixel copy leaves in every word of the drawn part the colour of its pixel, blue first in memory and with a
      zero top byte, unless that is the transparent colour, which leaves the old word. */
  lemma PixelCopyWords(before: Picture, src: seq<byte>, w: int, h: int, drawnW: int, drawnH: int, stride: int,
                       base: int, transparent: Option<word>, row: int, col: int)
    requires HasImage(src, w, h) && drawnW <= w && drawnH <= h && InFrame(|before|, base, drawnW, drawnH, stride)
    requires 0 <= row < drawnH && 0 <= col < drawnW
    ensures var at, q := base + Slot(row, col, stride), Slot(row, col, w);
            && 0 <= at < |before| && 0 <= q && 4 * q + 4 <= |src|
            && var color := Word(src[4 * q], src[4 * q + 1], src[4 * q + 2], 0);
               Overlay(before, BlitLayer(src, w, h, drawnW, drawnH, stride, base, transparent))[at]
               == if transparent == Some(color) then before[at] else color
  {
    hide Rgb, Word;
    SlotIsActive(row, col, drawnW, drawnH, stride);
    SourcePixelInside(src, w, h, row, col);
    var q := Slot(row, col, w);
    RgbIsWord(src[4 * q + 2], src[4 * q + 1], src[4 * q]);
    assert InRect(base + Slot(row, col, stride), base, drawnW, drawnH, stride);
  }

  lemma RgbIsWord(r: byte, g: byte, b: byte)
    ensures Rgb(r, g, b) == Word(b, g, r, 0)
  {
  }

  lemma LoadedColor(src: seq<byte>, q: int)
    requires 0 <= q && 4 * q + 4 <= |src|
    ensures Low24(Load32(src, 4 * q)) == RealColor(src, q) == Low24(RealColor(src, q))
  {
    RgbChannels(src[4 * q + 2], src[4 * q + 1], src[4 * q]);
  }

  /** The row copy shows what the pixel copy at (0, 0) with full fit shows, on every frame and for every image. */
  lemma RowCopyRefinesPixelCopy(frame: Picture, src: seq<byte>, w: int, h: int, stride: int)
    requires HasImage(src, w, h) && InFrame(|frame|, 0, w, h, stride)
    ensures Visible(Overlay(frame, RowsLayer(src, w, h, stride)))
            == Visible(Overlay(frame, BlitLayer(src, w, h, w, h, stride, 0, None)))
  {
    forall k | 0 <= k < Extent(w, h, stride) && InRect(k, 0, w, h, stride)
      ensures Low24(RowsLayer(src, w, h, stride)[k]) == Low24(BlitLayer(src, w, h, w, h, stride, 0, None)[k])
    {
      ActiveIsSlot(k, w, h, stride);
      SourcePixelInside(src, w, h, k / stride, k % stride);
      LoadedColor(src, Slot(k / stride, k % stride, w));
    }
  }

  lemma PixelOfBlit(src: seq<byte>, w: int, h: int, drawnW: int, drawnH: int, stride: int, base: int, t: word,
                    row: int, col: int)
    requires HasImage(src, w, h) && drawnW <= w && drawnH <= h && drawnW <= stride
    requires 0 <= row < drawnH && 0 <= col < drawnW
    ensures 0 <= Slot(row, col, w) && 4 * Slot(row, col, w) + 4 <= |src|
    ensures base + Slot(row, col, stride) in BlitLayer(src, w, h, drawnW, drawnH, stride, base, None)
    ensures base + Slot(row, col, stride) in BlitLayer(src, w, h, drawnW, drawnH, stride, base, Some(t))
            <==> RealColor(src, Slot(row, col, w)) != t
  {
    hide RealColor, Extent, Slot;
    SourcePixelInside(src, w, h, row, col);
    SlotIsActive(row, col, drawnW, drawnH, stride);
    assert InRect(base + Slot(row, col, stride), base, drawnW, drawnH, stride);
  }

  /** A transparent colour makes no difference exactly when no drawn pixel has it. */
  lemma TransparencyUnused(src: seq<byte>, w: int, h: int, drawnW: int, drawnH: int, stride: int, base: int, t: word)
    requires HasImage(src, w, h) && drawnW <= w && drawnH <= h && (0 < drawnW && 0 < drawnH ==> drawnW <= stride)
    ensures BlitLayer(src, w, h, drawnW, drawnH, stride, base, Some(t))
            == BlitLayer(src, w, h, drawnW, drawnH, stride, base, None)
            <==> forall row, col {:trigger Slot(row, col, w)} :: 0 <= row < drawnH && 0 <= col < drawnW ==>
                   (SourcePixelInside(src, w, h, row, col); RealColor(src, Slot(row, col, w)) != t)
  {
    hide RealColor, Extent, Slot;
    var some := BlitLayer(src, w, h, drawnW, drawnH, stride, base, Some(t));
    var none := BlitLayer(src, w, h, drawnW, drawnH, stride, base, None);
    forall row, col | 0 <= row < drawnH && 0 <= col < drawnW
      ensures 0 <= Slot(row, col, w) && 4 * Slot(row, col, w) + 4 <= |src|
      ensures base + Slot(row, col, stride) in none
      ensures base + Slot(row, col, stride) in some <==> RealColor(src, Slot(row, col, w)) != t
    {
      PixelOfBlit(src, w, h, drawnW, drawnH, stride, base, t, row, col);
    }
    forall k | k in none
      ensures var row, col := (k - base) / stride, (k - base) % stride;
              && 0 <= row < drawnH && 0 <= col < drawnW
              && k == base + Slot(row, col, stride) && none[k] == RealColor(src, Slot(row, col, w))
    {
      ActiveIsSlot(k - base, drawnW, drawnH, stride);
    }
  }

  lemma PixelOfOpaque(src: seq<byte>, w: int, h: int, drawnW: int, drawnH: int, stride: int, base: int,
                      row: int, col: int)
    requires HasImage(src, w, h) && drawnW <= w && drawnH <= h && 0 <= row && 0 <= col < stride
    requires 0 < drawnW && 0 < drawnH ==> drawnW <= stride
    ensures base + Slot(row, col, stride) in BlitLayer(src, w, h, drawnW, drawnH, stride, base, None)
            <==> row < drawnH && col < drawnW
  {
    hide Extent, Slot;
    SlotSplits(row, col, stride);
    if row < drawnH && col < drawnW {
      SlotIsActive(row, col, drawnW, drawnH, stride);
    }
  }

  /** A blit draws one column and one row more than the fit it is given, so it draws what the fit asks for exactly when
      the image ends before them, or nothing is asked for at all. */
  lemma FitIsExact(src: seq<byte>, w: int, h: int, wFit: int, hFit: int, stride: int, base: int)
    requires HasImage(src, w, h)
    requires 0 < Min(w, wFit + 1) && 0 < Min(h, hFit + 1) ==> Min(w, wFit + 1) <= stride
    ensures BlitLayer(src, w, h, Min(w, wFit + 1), Min(h, hFit + 1), stride, base, None)
            == BlitLayer(src, w, h, Min(w, wFit), Min(h, hFit), stride, base, None)
            <==> (w <= wFit && h <= hFit) || w <= 0 || h <= 0 || wFit < 0 || hFit < 0
  {
    hide BlitLayer, Slot, HasImage;
    var drawnW, drawnH := Min(w, wFit + 1), Min(h, hFit + 1);
    if w <= 0 || h <= 0 || wFit < 0 || hFit < 0 {
      NothingBlitted(src, w, h, drawnW, drawnH, stride, base);
      NothingBlitted(src, w, h, Min(w, wFit), Min(h, hFit), stride, base);
    } else if wFit < w {
      PixelOfOpaque(src, w, h, drawnW, drawnH, stride, base, 0, wFit);
      PixelOfOpaque(src, w, h, Min(w, wFit), Min(h, hFit), stride, base, 0, wFit);
    } else if hFit < h {
      PixelOfOpaque(src, w, h, drawnW, drawnH, stride, base, hFit, 0);
      PixelOfOpaque(src, w, h, Min(w, wFit), Min(h, hFit), stride, base, hFit, 0);
    }
  }

  lemma NothingBlitted(src: seq<byte>, w: int, h: int, drawnW: int, drawnH: int, stride: int, base: int)
    requires HasImage(src, w, h) && drawnW <= w && drawnH <= h && (drawnW <= 0 || drawnH <= 0)
    ensures BlitLayer(src, w, h, drawnW, drawnH, stride, base, None) == map[]
  {
  }

  /** Of a row of two pixels, a fit of one column and row draws both. */
  lemma FitOfOneDrawsTwo(src: seq<byte>)
    requires |src| == 8
    ensures HasImage(src, 2, 1)
    ensures 1 in BlitLayer(src, 2, 1, Min(2, 1 + 1), Min(1, 1 + 1), 2, 0, None)
    ensures 1 !in BlitLayer(src, 2, 1, Min(2, 1), Min(1, 1), 2, 0, None)
  {
    PixelOfOpaque(src, 2, 1, 2, 1, 2, 0, 0, 1);
    PixelOfOpaque(src, 2, 1, 1, 1, 2, 0, 0, 1);
    assert Slot(0, 1, 2) == 1;
  }

  // ----- from image dump to screen -----

  /** What a pixel of the dump looks like on the screen. */
  function TrueColor(image: GimpImage, q: int): word
    requires image.bytesPerPixel >= 3 && 0 <= q && (q + 1) * image.bytesPerPixel <= |image.pixelData|
  {
    var at := q * image.bytesPerPixel;
    Rgb(image.pixelData[at], image.pixelData[at + 1], image.pixelData[at + 2])
  }

  /** What the blit shows: RGBA dumps are copied to 32 bits unturned, so red and blue change places. */
  function ShownColor(image: GimpImage, q: int): word
    requires 3 <= image.bytesPerPixel <= 4 && 0 <= q && (q + 1) * image.bytesPerPixel <= |image.pixelData|
  {
    var at := q * image.bytesPerPixel;
    if image.bytesPerPixel == 3 then TrueColor(image, q)
    else Rgb(image.pixelData[at + 2], image.pixelData[at + 1], image.pixelData[at])
  }

  /** A pixel shows its own colour unless it comes from an RGBA dump and its red differs from its blue. */
  lemma ShownTruly(image: GimpImage, q: int)
    requires 3 <= image.bytesPerPixel <= 4 && 0 <= q && (q + 1) * image.bytesPerPixel <= |image.pixelData|
    ensures ShownColor(image, q) == TrueColor(image, q)
            <==> image.bytesPerPixel == 3
                 || image.pixelData[q * image.bytesPerPixel] == image.pixelData[q * image.bytesPerPixel + 2]
  {
    var at := q * image.bytesPerPixel;
    RgbChannels(image.pixelData[at], image.pixelData[at + 1], image.pixelData[at + 2]);
    RgbChannels(image.pixelData[at + 2], image.pixelData[at + 1], image.pixelData[at]);
  }

  /** A red pixel of an RGBA dump is shown blue. */
  lemma RedShownBlue()
    ensures var red := GimpImage(1, 1, 4, [0xff, 0, 0, 0xff]);
            TrueColor(red, 0) == 0xff0000 && ShownColor(red, 0) == 0x0000ff
  {
  }

  /** An image a bitmap can hold, in one of the two dump formats. */
  ghost predicate Drawable(image: GimpImage) {
    && GimpBmp.WellFormed(image)
    && image.width <= 0x7fff && image.height <= 0x7fff
    && 3 <= image.bytesPerPixel <= 4
  }

  lemma ImagePixelInside(image: GimpImage, row: int, col: int)
    requires Drawable(image) && 0 <= row < image.height && 0 <= col < image.width
    ensures 0 <= Slot(row, col, image.width)
    ensures (Slot(row, col, image.width) + 1) * image.bytesPerPixel <= |image.pixelData|
  {
    SlotIsActive(row, col, image.width, image.height, image.width);
    assert Extent(image.width, image.height, image.width) == image.width * image.height;
    ProductsInOrder(Slot(row, col, image.width) + 1, image.width * image.height, image.bytesPerPixel);
  }

  /** The layer of an image drawn with its first pixel at word `base`, clipped to `drawnW` by `drawnH` pixels. */
  function ImageLayer(image: GimpImage, drawnW: int, drawnH: int, stride: int, base: int,
                      transparent: Option<word>): Layer
    requires Drawable(image) && drawnW <= image.width && drawnH <= image.height
  {
    map k | base <= k < base + Extent(drawnW, drawnH, stride)
            && InRect(k, base, drawnW, drawnH, stride)
            && transparent != Some(ImageColor(image, drawnW, drawnH, stride, k - base))
      :: ImageColor(image, drawnW, drawnH, stride, k - base)
  }

  function ImageColor(image: GimpImage, drawnW: int, drawnH: int, stride: int, p: int): word
    requires Drawable(image) && drawnW <= image.width && drawnH <= image.height
    requires Active(p, drawnW, drawnH, stride)
  {
    ActiveIsSlot(p, drawnW, drawnH, stride);
    ImagePixelInside(image, p / stride, p % stride);
    ShownColor(image, Slot(p / stride, p % stride, image.width))
  }

  /** The converter `load_gimp_bmp` uses for the screen. */
  function ScreenConverter(image: GimpImage): (c: PixelMaps.Conversion)
    requires Drawable(image)
    ensures Converter(image.bytesPerPixel, 32) == Some(c)
  {
    if image.bytesPerPixel == 3 then PixelMaps.From24To32 else PixelMaps.From32To32
  }

  lemma ConvertedColor(image: GimpImage, q: int)
    requires Drawable(image) && 0 <= q && (q + 1) * image.bytesPerPixel <= |image.pixelData|
    ensures var p := PixelMaps.ConvertPixel(ScreenConverter(image),
                                            PixelMaps.PixelAt(image.pixelData, q, image.bytesPerPixel));
            Rgb(p[2], p[1], p[0]) == ShownColor(image, q)
  {
    hide Rgb, GimpBmp.WellFormed;
  }

  /** The 32-bit bitmap of a dump, in memory that held `unset`. */
  function Bitmap32(image: GimpImage, unset: seq<byte>): (data: seq<byte>)
    requires Drawable(image) && image.width * image.height * 4 <= |unset|
    ensures |data| == |unset|
  {
    LoadFits(image, ScreenConverter(image));
    PixelMaps.Converted(ScreenConverter(image), unset, image.pixelData, image.width, image.height, image.width,
                        image.width)
  }

  lemma BitmapPixel(image: GimpImage, unset: seq<byte>, row: int, col: int)
    requires Drawable(image) && image.width * image.height * 4 <= |unset|
    requires 0 <= row < image.height && 0 <= col < image.width
    ensures var q := Slot(row, col, image.width);
            && 0 <= q && (q + 1) * image.bytesPerPixel <= |image.pixelData| && q * 4 + 4 <= |unset|
            && Bitmap32(image, unset)[q * 4..q * 4 + 4]
               == PixelMaps.ConvertPixel(ScreenConverter(image),
                                         PixelMaps.PixelAt(image.pixelData, q, image.bytesPerPixel))
  {
    var c := ScreenConverter(image);
    LoadFits(image, c);
    ImagePixelInside(image, row, col);
    PixelMaps.ConvertedPixel(c, unset, image.pixelData, image.width, image.height, image.width, image.width, row, col);
  }

  lemma ColorOfPixel(image: GimpImage, data: seq<byte>, q: int)
    requires Drawable(image) && 0 <= q && (q + 1) * image.bytesPerPixel <= |image.pixelData| && q * 4 + 4 <= |data|
    requires data[q * 4..q * 4 + 4] == PixelMaps.ConvertPixel(ScreenConverter(image),
                                         PixelMaps.PixelAt(image.pixelData, q, image.bytesPerPixel))
    ensures RealColor(data, q) == ShownColor(image, q)
  {
    ConvertedColor(image, q);
    assert data[q * 4 + 2] == data[q * 4..q * 4 + 4][2] && data[q * 4 + 1] == data[q * 4..q * 4 + 4][1];
    assert data[q * 4] == data[q * 4..q * 4 + 4][0];
  }

  /** Converting to a bitmap and blitting it draws the image: the two byte orders cancel. */
  lemma BlitOfBitmap(image: GimpImage, unset: seq<byte>, drawnW: int, drawnH: int, stride: int, base: int,
                     transparent: Option<word>)
    requires Drawable(image) && image.width * image.height * 4 <= |unset|
    requires drawnW <= image.width && drawnH <= image.height
    ensures HasImage(Bitmap32(image, unset), image.width, image.height)
    ensures BlitLayer(Bitmap32(image, unset), image.width, image.height, drawnW, drawnH, stride, base, transparent)
            == ImageLayer(image, drawnW, drawnH, stride, base, transparent)
  {
    hide Bitmap32, ShownColor, RealColor;
    var data := Bitmap32(image, unset);
    forall p | Active(p, drawnW, drawnH, stride)
      ensures PixelColor(data, image.width, image.height, drawnW, drawnH, stride, p)
              == ImageColor(image, drawnW, drawnH, stride, p)
    {
      ActiveIsSlot(p, drawnW, drawnH, stride);
      BitmapPixel(image, unset, p / stride, p % stride);
      ColorOfPixel(image, data, Slot(p / stride, p % stride, image.width));
    }
  }

  /** The same of a dump drawn by `DispIMAGE_fit`. */
  lemma ImageFitIsExact(image: GimpImage, wFit: int, hFit: int, stride: int, base: int)
    requires Drawable(image)
    requires var w, h := Min(image.width, wFit + 1), Min(image.height, hFit + 1); 0 < w && 0 < h ==> w <= stride
    ensures ImageLayer(image, Min(image.width, wFit + 1), Min(image.height, hFit + 1), stride, base, None)
            == ImageLayer(image, Min(image.width, wFit), Min(image.height, hFit), stride, base, None)
            <==> (image.width <= wFit && image.height <= hFit) || image.width == 0 || image.height == 0
                 || wFit < 0 || hFit < 0
  {
    hide BlitLayer, ImageLayer, Bitmap32, HasImage;
    var w, h := image.width, image.height;
    ProductOrder(0, 0, w, h);
    var unset: seq<byte> := seq(w * h * 4, _ => 0);
    BlitOfBitmap(image, unset, Min(w, wFit + 1), Min(h, hFit + 1), stride, base, None);
    BlitOfBitmap(image, unset, Min(w, wFit), Min(h, hFit), stride, base, None);
    FitIsExact(Bitmap32(image, unset), w, h, wFit, hFit, stride, base);
  }

  /** The part of a dump that its bitmap keeps: all of it if its sizes fit a `short`, else what the sizes, cut short,
      make of its data, which is nothing when one of them turns negative. */
  function Seen(image: GimpImage): (s: GimpImage)
    requires GimpBmp.WellFormed(image) && 3 <= image.bytesPerPixel <= 4
    ensures Drawable(s)
    ensures image.width <= 0x7fff && image.height <= 0x7fff ==> s == image
  {
    ProductOrder(Positive(Short(image.width)), Positive(Short(image.height)), image.width, image.height);
    ProductsInOrder(Positive(Short(image.width)) * Positive(Short(image.height)), image.width * image.height,
                    image.bytesPerPixel);
    image.(width := Positive(Short(image.width)), height := Positive(Short(image.height)))
  }

  lemma SeenFits(image: GimpImage)
    requires GimpBmp.WellFormed(image) && 3 <= image.bytesPerPixel <= 4
    ensures Seen(image).width * Seen(image).height * 4 <= image.width * image.height * 4
  {
    ProductOrder(Positive(Short(image.width)), Positive(Short(image.height)), image.width, image.height);
  }

  /** An image of which nothing is drawn. */
  lemma NothingDrawn(image: GimpImage, src: seq<byte>, w: int, h: int, drawnW: int, drawnH: int,
                     otherW: int, otherH: int, stride: int, base: int, transparent: Option<word>)
    requires Drawable(image) && drawnW <= image.width && drawnH <= image.height && (drawnW <= 0 || drawnH <= 0)
    requires HasImage(src, w, h) && otherW <= w && otherH <= h && (otherW <= 0 || otherH <= 0)
    ensures ImageLayer(image, drawnW, drawnH, stride, base, transparent) == map[]
    ensures BlitLayer(src, w, h, otherW, otherH, stride, base, transparent) == map[]
  {
  }

  /** Load the dump as a 32-bit bitmap and blit it: the common part of the `DispIMAGE` functions. */
  method BlitImage(dest: array<word>, stride: int, image: GimpImage, x: int, y: int, wFit: int, hFit: int,
                   transparent: Option<word>)
    requires GimpBmp.WellFormed(image) && 3 <= image.bytesPerPixel <= 4
    requires InFrame(dest.Length, Slot(y, x, stride), Min(Seen(image).width, wFit + 1),
                     Min(Seen(image).height, hFit + 1), stride)
    modifies dest
    ensures dest[..] == Overlay(old(dest[..]), ImageLayer(Seen(image), Min(Seen(image).width, wFit + 1),
                                                          Min(Seen(image).height, hFit + 1), stride, Slot(y, x, stride),
                                                          transparent))
  {
    hide BlitLayer, ImageLayer, Slot, PixelMaps.Converted, Overlay, InFrame;
    var bitmap := new Bitmap();
    var retCode := bitmap.LoadGimpBmp(image, 32, true);
    ghost var data := bitmap.data[..];
    BitmapShows(image, data, wFit, hFit, stride, Slot(y, x, stride), transparent, dest.Length);
    CopyImageToBuffer(dest, bitmap.data[..], stride, bitmap.biWidth, bitmap.biHeight, x, y, wFit, hFit, transparent);
  }

  lemma BitmapShows(image: GimpImage, data: seq<byte>, wFit: int, hFit: int, stride: int, base: int,
                    transparent: Option<word>, frameLen: int)
    requires GimpBmp.WellFormed(image) && 3 <= image.bytesPerPixel <= 4
    requires |data| == image.width * image.height * 4
    requires var c, w, h := Converter(image.bytesPerPixel, 32).value, Short(image.width), Short(image.height);
             && PixelMaps.Fits(c, |image.pixelData|, |data|, w, h, w, w)
             && exists unset: seq<byte> ::
                  |unset| == |data| && data == PixelMaps.Converted(c, unset, image.pixelData, w, h, w, w)
    requires InFrame(frameLen, base, Min(Seen(image).width, wFit + 1), Min(Seen(image).height, hFit + 1), stride)
    ensures var w, h := Short(image.width), Short(image.height);
            && HasImage(data, w, h)
            && InFrame(frameLen, base, Min(w, wFit + 1), Min(h, hFit + 1), stride)
            && BlitLayer(data, w, h, Min(w, wFit + 1), Min(h, hFit + 1), stride, base, transparent)
               == ImageLayer(Seen(image), Min(Seen(image).width, wFit + 1), Min(Seen(image).height, hFit + 1), stride,
                             base, transparent)
  {
    hide PixelMaps.Converted, BlitLayer, ImageLayer;
    var c, w, h := ScreenConverter(Seen(image)), Short(image.width), Short(image.height);
    SeenFits(image);
    if 0 <= w && 0 <= h {
      var unset: seq<byte> :| |unset| == |data| && data == PixelMaps.Converted(c, unset, image.pixelData, w, h, w, w);
      assert data == Bitmap32(Seen(image), unset);
      BlitOfBitmap(Seen(image), unset, Min(w, wFit + 1), Min(h, hFit + 1), stride, base, transparent);
    } else {
      NothingDrawn(Seen(image), data, w, h, Min(Seen(image).width, wFit + 1), Min(Seen(image).height, hFit + 1),
                   Min(w, wFit + 1), Min(h, hFit + 1), stride, base, transparent);
    }
  }

  /** `DispIMAGE_from_gimp`, where `found` tells whether `malloc` finds memory for the bitmap's description. */
  method DispImageFromGimp(display: VipFrameReader, image: GimpImage, x: int, y: int, transparent: word, found: bool)
    returns (drawn: int)
    requires display.Valid() && GimpBmp.WellFormed(image) && 3 <= image.bytesPerPixel <= 4
    requires InFrame(display.width * display.height, Slot(y, x, display.width), Seen(image).width, Seen(image).height,
                     display.width)
    modifies display.GetDisplayFrame()
    ensures display.Valid() && drawn == if found then 1 else 0
    ensures display.State()
            == if found
               then Step(old(display.State()),
                         DrawShown(PlacedLayer(Placed(Seen(image), x, y), display.width, transparent)))
               else old(display.State())
    ensures found && display.displayFrame == 0 ==>
              display.frame0Base[..] == Overlay(old(display.frame0Base[..]),
                                                PlacedLayer(Placed(Seen(image), x, y), display.width, transparent))
    ensures found && display.displayFrame == 1 ==>
              display.frame1Base[..] == Overlay(old(display.frame1Base[..]),
                                                PlacedLayer(Placed(Seen(image), x, y), display.width, transparent))
  {
    if !found {
      return 0;
    }
    var dest := display.GetDisplayFrame();
    WholeImage(image, display.width, Slot(y, x, display.width), Some(transparent));
    BlitImage(dest, display.width, image, x, y, Short(image.width), Short(image.height), Some(transparent));
    assert display.GetDrawFrame() != dest ==> display.GetDrawFrame()[..] == old(display.GetDrawFrame()[..]);
    return 1;
  }

  /** Clipping a bitmap to its own sizes keeps all of it. */
  lemma WholeImage(image: GimpImage, stride: int, base: int, transparent: Option<word>)
    requires GimpBmp.WellFormed(image) && 3 <= image.bytesPerPixel <= 4
    ensures var s, w, h := Seen(image), Min(Seen(image).width, Short(image.width) + 1),
                           Min(Seen(image).height, Short(image.height) + 1);
            && (0 < w && 0 < h ==> w == s.width && h == s.height)
            && ImageLayer(s, w, h, stride, base, transparent)
               == ImageLayer(s, s.width, s.height, stride, base, transparent)
  {
  }

  /** `DispIMAGE_fit`: the first `w + 1` columns and `h + 1` rows of the image, every colour opaque. */
  method DispImageFit(display: VipFrameReader, image: GimpImage, x: int, y: int, w: int, h: int, found: bool)
    returns (drawn: int)
    requires display.Valid() && GimpBmp.WellFormed(image) && 3 <= image.bytesPerPixel <= 4
    requires InFrame(display.width * display.height, Slot(y, x, display.width),
                     Min(Seen(image).width, w + 1), Min(Seen(image).height, h + 1), display.width)
    modifies display.GetDisplayFrame()
    ensures display.Valid() && drawn == if found then 1 else 0
    ensures display.State()
            == if found
               then Step(old(display.State()),
                         DrawShown(ImageLayer(Seen(image), Min(Seen(image).width, w + 1),
                                              Min(Seen(image).height, h + 1), display.width,
                                              Slot(y, x, display.width), None)))
               else old(display.State())
  {
    if !found {
      return 0;
    }
    var dest := display.GetDisplayFrame();
    BlitImage(dest, display.width, image, x, y, w, h, None);
    assert display.GetDrawFrame() != dest ==> display.GetDrawFrame()[..] == old(display.GetDrawFrame()[..]);
    return 1;
  }

  // ----- pictures in screen coordinates -----

  /** An image with its top left corner at (x, y). */
  datatype Placed = Placed(image: GimpImage, x: int, y: int)

  ghost predicate OnLines(p: Placed, screenWidth: int) {
    Drawable(p.image) && 0 <= p.x && p.x + p.image.width <= screenWidth
  }

  predicate Covers(p: Placed, x: int, y: int) {
    p.x <= x < p.x + p.image.width && p.y <= y < p.y + p.image.height
  }

  /** The layer `DispIMAGE_from_gimp` draws. */
  function PlacedLayer(p: Placed, screenWidth: int, transparent: word): Layer
    requires Drawable(p.image)
  {
    ImageLayer(p.image, p.image.width, p.image.height, screenWidth, Slot(p.y, p.x, screenWidth), Some(transparent))
  }

  /** Words of a layer are words of its rectangle, at the image's own coordinates. */
  lemma LayerCovers(p: Placed, screenWidth: int, transparent: word, k: int)
    requires OnLines(p, screenWidth) && k in PlacedLayer(p, screenWidth, transparent)
    ensures 0 < screenWidth && Covers(p, k % screenWidth, k / screenWidth)
  {
    RectCoordinates(k, p.x, p.y, p.image.width, p.image.height, screenWidth);
  }

  /** `DispIMAGE_from_gimp` on every pixel of the screen: inside the image the pixel takes the image's colour unless
      that is the transparent one, everywhere else it stays. */
  lemma ImageOnScreen(before: Picture, p: Placed, screenWidth: int, transparent: word, x: int, y: int)
    requires OnLines(p, screenWidth)
    requires 0 <= x < screenWidth && 0 <= Slot(y, x, screenWidth) < |before|
    ensures Covers(p, x, y) ==>
              && 0 <= Slot(y - p.y, x - p.x, p.image.width)
              && (Slot(y - p.y, x - p.x, p.image.width) + 1) * p.image.bytesPerPixel <= |p.image.pixelData|
    ensures Overlay(before, PlacedLayer(p, screenWidth, transparent))[Slot(y, x, screenWidth)]
            == if Covers(p, x, y) && ShownColor(p.image, Slot(y - p.y, x - p.x, p.image.width)) != transparent
               then ShownColor(p.image, Slot(y - p.y, x - p.x, p.image.width))
               else before[Slot(y, x, screenWidth)]
  {
    var w, h, k := p.image.width, p.image.height, Slot(y, x, screenWidth);
    SlotSplits(y, x, screenWidth);
    if Covers(p, x, y) {
      ImagePixelInside(p.image, y - p.y, x - p.x);
      SlotIsActive(y - p.y, x - p.x, w, h, screenWidth);
      RectSlot(p.x, p.y, x - p.x, y - p.y, screenWidth);
      assert InRect(k, Slot(p.y, p.x, screenWidth), w, h, screenWidth);
    } else if k in PlacedLayer(p, screenWidth, transparent) {
      LayerCovers(p, screenWidth, transparent, k);
    }
  }

  ghost predicate Apart(p: Placed, q: Placed) {
    forall x, y :: !(Covers(p, x, y) && Covers(q, x, y))
  }

  function Layers(placed: seq<Placed>, screenWidth: int, transparent: word): (layers: seq<Layer>)
    requires forall p :: p in placed ==> Drawable(p.image)
    ensures |layers| == |placed|
    ensures forall i :: 0 <= i < |placed| ==>
              placed[i] in placed && layers[i] == PlacedLayer(placed[i], screenWidth, transparent)
  {
    seq(|placed|, i requires 0 <= i < |placed| =>
      assert placed[i] in placed;
      PlacedLayer(placed[i], screenWidth, transparent))
  }

  /** Images that do not touch can be drawn in any order, and more than once. */
  lemma PlacementOrderIsFree(frame: Picture, placed: seq<Placed>, others: seq<Placed>, screenWidth: int, t: word)
    requires forall p :: p in placed ==> Drawable(p.image) && OnLines(p, screenWidth)
    requires forall p, q :: p in placed && q in placed && p != q ==> Apart(p, q)
    requires forall p :: p in placed <==> p in others
    ensures forall p :: p in others ==> Drawable(p.image)
    ensures OverlayAll(frame, Layers(placed, screenWidth, t)) == OverlayAll(frame, Layers(others, screenWidth, t))
  {
    var ls, ms := Layers(placed, screenWidth, t), Layers(others, screenWidth, t);
    SameLayers(placed, others, screenWidth, t);
    SameLayers(others, placed, screenWidth, t);
    forall a, b, k | a in ls && b in ls && k in a && k in b
      ensures a[k] == b[k]
    {
      var i :| 0 <= i < |ls| && ls[i] == a;
      var j :| 0 <= j < |ls| && ls[j] == b;
      LayerCovers(placed[i], screenWidth, t, k);
      LayerCovers(placed[j], screenWidth, t, k);
      assert placed[i] == placed[j] || Apart(placed[i], placed[j]);
    }
    OrderIsInvisible(frame, ls, ms);
  }

  lemma SameLayers(placed: seq<Placed>, others: seq<Placed>, screenWidth: int, t: word)
    requires forall p :: p in placed ==> Drawable(p.image)
    requires forall p :: p in placed <==> p in others
    ensures forall a :: a in Layers(placed, screenWidth, t) ==> a in Layers(others, screenWidth, t)
  {
    forall a | a in Layers(placed, screenWidth, t)
      ensures a in Layers(others, screenWidth, t)
    {
      var i :| 0 <= i < |placed| && PlacedLayer(placed[i], screenWidth, t) == a;
      assert placed[i] in others;
      var j :| 0 <= j < |others| && others[j] == placed[i];
      assert Layers(others, screenWidth, t)[j] == a;
    }
  }

  const FRAME_WIDTH := 800

  ghost predicate Sized(image: GimpImage, w: nat, h: nat) {
    Drawable(image) && image.width == w && image.height == h
  }

  /** The five transport images, each in its released or pressed version, at their places on the screen. */
  function Transport(play: GimpImage, stop: GimpImage, pause: GimpImage, back: GimpImage,
                     ford: GimpImage): seq<Placed> {
    [Placed(play, 296, 45), Placed(stop, 404, 45), Placed(pause, 523, 45), Placed(back, 333, 177),
     Placed(ford, 512, 177)]
  }

  lemma TransportApart(play: GimpImage, stop: GimpImage, pause: GimpImage, back: GimpImage, ford: GimpImage)
    requires Sized(play, 94, 109) && Sized(stop, 98, 111) && Sized(pause, 108, 112)
    requires Sized(back, 61, 57) && Sized(ford, 61, 57)
    ensures var placed := Transport(play, stop, pause, back, ford);
            && (forall p :: p in placed ==> Drawable(p.image) && OnLines(p, FRAME_WIDTH))
            && forall p, q :: p in placed && q in placed && p != q ==> Apart(p, q)
  {
    hide Drawable;
  }

  /** The order in which `init_background` and the clicks draw the transport images does not change the frame. */
  lemma TransportOrderIsFree(frame: Picture, play: GimpImage, stop: GimpImage, pause: GimpImage, back: GimpImage,
                             ford: GimpImage, order: seq<Placed>, t: word)
    requires Sized(play, 94, 109) && Sized(stop, 98, 111) && Sized(pause, 108, 112)
    requires Sized(back, 61, 57) && Sized(ford, 61, 57)
    requires multiset(order) == multiset(Transport(play, stop, pause, back, ford))
    ensures forall p :: p in order ==> Drawable(p.image)
    ensures OverlayAll(frame, Layers(order, FRAME_WIDTH, t))
            == OverlayAll(frame, Layers(Transport(play, stop, pause, back, ford), FRAME_WIDTH, t))
  {
    hide PlacedLayer, Transport, Drawable, Apart, OnLines;
    TransportApart(play, stop, pause, back, ford);
    var placed := Transport(play, stop, pause, back, ford);
    assert forall p :: p in order <==> p in multiset(order);
    assert forall p :: p in placed <==> p in multiset(placed);
    PlacementOrderIsFree(frame, placed, order, FRAME_WIDTH, t);
  }
}
