/** gimp_bmp.c: conversion of packed pixel maps with separate source and destination line widths. */
module PixelMaps {
  import opened Common
  import opened Memory
  import opened Raster

  datatype Conversion = From32To32 | From32To24 | From32To16 | From24To32 | From24To24 | From24To16

  function SourceBytes(c: Conversion): (n: int)
    ensures 3 <= n <= 4
  {
    match c
    case From32To32 | From32To24 | From32To16 => 4
    case From24To32 | From24To24 | From24To16 => 3
  }

  function DestBytes(c: Conversion): (n: int)
    ensures 2 <= n <= 4
  {
    match c
    case From32To32 | From24To32 => 4
    case From32To24 | From24To24 => 3
    case From32To16 | From24To16 => 2
  }

  /** The packed format R(5):G(6):B(5). */
  function Pack565(r: byte, g: byte, b: byte): half {
    (((r >> 3) as half) << 11) | (((g >> 2) as half) << 5) | ((b >> 3) as half)
  }

  /** The bytes each conversion makes of one pixel. Pixels are stored R, G, B(, A); only 24 to 32 turns them round. */
  function ConvertPixel(c: Conversion, p: seq<byte>): (q: seq<byte>)
    requires |p| == SourceBytes(c)
    ensures |q| == DestBytes(c)
  {
    match c
    case From32To32 | From24To24 => p
    case From32To24 => p[..3]
    case From24To32 => [p[2], p[1], p[0], 0xff]
    case From32To16 | From24To16 => Bytes16(Pack565(p[0], p[1], p[2]))
  }

  /** The active pixels lie inside both buffers and no line is longer than its width. */
  predicate Fits(c: Conversion, srcLen: int, destLen: int, w: int, h: int, srcWidth: int, destWidth: int) {
    && w <= srcWidth
    && w <= destWidth
    && Extent(w, h, srcWidth) * SourceBytes(c) <= srcLen
    && Extent(w, h, destWidth) * DestBytes(c) <= destLen
  }

  function SourceSlot(p: int, srcWidth: int, destWidth: int): int
    requires 0 < destWidth
  {
    Slot(p / destWidth, p % destWidth, srcWidth)
  }

  /** Pixel in slot `p` of a map of `n`-byte pixels. */
  function PixelAt(pixels: seq<byte>, p: int, n: int): (q: seq<byte>)
    requires 3 <= n <= 4 && 0 <= p && (p + 1) * n <= |pixels|
    ensures |q| == n
  {
    if n == 3 then pixels[p * 3..p * 3 + 3] else pixels[p * 4..p * 4 + 4]
  }

  lemma SourceFits(c: Conversion, srcLen: int, destLen: int, w: int, h: int, srcWidth: int, destWidth: int, p: int)
    requires Fits(c, srcLen, destLen, w, h, srcWidth, destWidth)
    requires Active(p, w, h, destWidth)
    ensures 0 <= SourceSlot(p, srcWidth, destWidth) < Extent(w, h, srcWidth)
    ensures (SourceSlot(p, srcWidth, destWidth) + 1) * SourceBytes(c) <= srcLen
    ensures (p + 1) * DestBytes(c) <= destLen
  {
    ActiveIsSlot(p, w, h, destWidth);
    SlotIsActive(p / destWidth, p % destWidth, w, h, srcWidth);
  }

  /** Byte `k` of a destination that held `before`: a byte of the converted active pixel, or untouched padding. */
  function ByteAfter(c: Conversion, before: seq<byte>, src: seq<byte>,
                     w: int, h: int, srcWidth: int, destWidth: int, k: int): byte
    requires Fits(c, |src|, |before|, w, h, srcWidth, destWidth)
    requires 0 <= k < |before|
  {
    var p := k / DestBytes(c);
    if Active(p, w, h, destWidth) then
      SourceFits(c, |src|, |before|, w, h, srcWidth, destWidth, p);
      ConvertPixel(c, PixelAt(src, SourceSlot(p, srcWidth, destWidth), SourceBytes(c)))[k % DestBytes(c)]
    else
      before[k]
  }

  /** The whole destination after a conversion, byte by byte. */
  function Converted(c: Conversion, before: seq<byte>, src: seq<byte>,
                     w: int, h: int, srcWidth: int, destWidth: int): (after: seq<byte>)
    requires Fits(c, |src|, |before|, w, h, srcWidth, destWidth)
    ensures |after| == |before|
  {
    seq(|before|, k requires 0 <= k < |before| => ByteAfter(c, before, src, w, h, srcWidth, destWidth, k))
  }

  // ----- the loops: slots before `n` are converted -----

  ghost predicate ConvertedBefore(c: Conversion, n: int, now: seq<byte>, before: seq<byte>, src: seq<byte>,
                                  w: int, h: int, srcWidth: int, destWidth: int)
    requires Fits(c, |src|, |before|, w, h, srcWidth, destWidth)
  {
    && |now| == |before|
    && forall k :: 0 <= k < |now| ==>
         now[k] == if k / DestBytes(c) < n then ByteAfter(c, before, src, w, h, srcWidth, destWidth, k) else before[k]
  }

  lemma PixelStored(c: Conversion, row: int, col: int, was: seq<byte>, now: seq<byte>, before: seq<byte>,
                    src: seq<byte>, w: int, h: int, srcWidth: int, destWidth: int)
    requires Fits(c, |src|, |before|, w, h, srcWidth, destWidth)
    requires 0 <= row < h && 0 <= col < w
    requires ConvertedBefore(c, Slot(row, col, destWidth), was, before, src, w, h, srcWidth, destWidth)
    requires 0 <= Slot(row, col, srcWidth) && (Slot(row, col, srcWidth) + 1) * SourceBytes(c) <= |src|
    requires 0 <= Slot(row, col, destWidth) * DestBytes(c) <= |before| - DestBytes(c)
    requires now == Stored(was, Slot(row, col, destWidth) * DestBytes(c),
                           ConvertPixel(c, PixelAt(src, Slot(row, col, srcWidth), SourceBytes(c))))
    ensures ConvertedBefore(c, Slot(row, col + 1, destWidth), now, before, src, w, h, srcWidth, destWidth)
  {
    var n := Slot(row, col, destWidth);
    SlotIsActive(row, col, w, h, destWidth);
    forall k | 0 <= k < |now|
      ensures now[k] == if k / DestBytes(c) < n + 1
                        then ByteAfter(c, before, src, w, h, srcWidth, destWidth, k) else before[k]
    {
      SlotOfByte(c, n, k);
    }
  }

  lemma SlotOfByte(c: Conversion, n: int, k: int)
    ensures k / DestBytes(c) == n <==> n * DestBytes(c) <= k < n * DestBytes(c) + DestBytes(c)
    ensures k / DestBytes(c) == n ==> k % DestBytes(c) == k - n * DestBytes(c)
  {
    match c
    case From32To32 | From24To32 =>
    case From32To24 | From24To24 =>
    case From32To16 | From24To16 =>
  }

  lemma LineDone(c: Conversion, row: int, now: seq<byte>, before: seq<byte>, src: seq<byte>,
                 w: int, h: int, srcWidth: int, destWidth: int)
    requires Fits(c, |src|, |before|, w, h, srcWidth, destWidth)
    requires 0 <= row < h
    requires ConvertedBefore(c, Slot(row, Positive(w), destWidth), now, before, src, w, h, srcWidth, destWidth)
    ensures ConvertedBefore(c, Slot(row + 1, 0, destWidth), now, before, src, w, h, srcWidth, destWidth)
  {
    forall k | 0 <= k < |now| && Active(k / DestBytes(c), w, h, destWidth)
      ensures k / DestBytes(c) < Slot(row, w, destWidth) <==> k / DestBytes(c) < Slot(row + 1, 0, destWidth)
    {
      PaddingIsEmpty(k / DestBytes(c), row, w, h, destWidth);
    }
  }

  lemma AllLinesDone(c: Conversion, now: seq<byte>, before: seq<byte>, src: seq<byte>,
                     w: int, h: int, srcWidth: int, destWidth: int)
    requires Fits(c, |src|, |before|, w, h, srcWidth, destWidth)
    requires ConvertedBefore(c, Slot(Positive(h), 0, destWidth), now, before, src, w, h, srcWidth, destWidth)
    ensures now == Converted(c, before, src, w, h, srcWidth, destWidth)
  {
    forall k | 0 <= k < |now| && Active(k / DestBytes(c), w, h, destWidth)
      ensures k / DestBytes(c) < Slot(h, 0, destWidth)
    {
      ActiveIsSlot(k / DestBytes(c), w, h, destWidth);
      ExtentInLines(w, h, destWidth);
    }
  }

  lemma PixelAddresses(c: Conversion, srcLen: int, destLen: int, row: int, col: int,
                       w: int, h: int, srcWidth: int, destWidth: int)
    requires Fits(c, srcLen, destLen, w, h, srcWidth, destWidth)
    requires 0 <= row < h && 0 <= col < w
    ensures 0 <= Slot(row, col, srcWidth) && (Slot(row, col, srcWidth) + 1) * SourceBytes(c) <= srcLen
    ensures 0 <= Slot(row, col, destWidth) && (Slot(row, col, destWidth) + 1) * DestBytes(c) <= destLen
  {
    SlotIsActive(row, col, w, h, srcWidth);
    SlotIsActive(row, col, w, h, destWidth);
  }

  // ----- one pixel of each conversion, as the inner loop bodies walk their byte pointers -----

  method StorePixel32To32(src: seq<byte>, srcLine: int, dest: array<byte>, destLine: int)
    requires 0 <= srcLine <= |src| - 4 && 0 <= destLine <= dest.Length - 4
    modifies dest
    ensures dest[..] == Stored(old(dest[..]), destLine, ConvertPixel(From32To32, src[srcLine..srcLine + 4]))
  {
    BytesOfWord(src[srcLine], src[srcLine + 1], src[srcLine + 2], src[srcLine + 3]);
    Store32(dest, destLine, Load32(src, srcLine));
  }

  method StorePixel32To24(src: seq<byte>, srcLine: int, dest: array<byte>, destLine: int)
    requires 0 <= srcLine <= |src| - 4 && 0 <= destLine <= dest.Length - 3
    modifies dest
    ensures dest[..] == Stored(old(dest[..]), destLine, ConvertPixel(From32To24, src[srcLine..srcLine + 4]))
  {
    var s, d := srcLine, destLine;
    dest[d] := src[s];
    s, d := s + 1, d + 1;
    dest[d] := src[s];
    s, d := s + 1, d + 1;
    dest[d] := src[s];
  }

  /** The 5:6:5 pixel cut out of a 32-bit one with shifts and masks. */
  function ShortOfLong(longPixel: word): half {
    ((((longPixel >> 3) & 0x1f) << 11) | (((longPixel >> 10) & 0x3f) << 5) | (((longPixel >> 19) & 0x1f) << 0)) as half
  }

  lemma ShortOfLongPacks(r: byte, g: byte, b: byte, a: byte)
    ensures ShortOfLong(Word(r, g, b, a)) == Pack565(r, g, b)
  {
  }

  method StorePixel32To16(src: seq<byte>, srcLine: int, dest: array<byte>, destLine: int)
    requires 0 <= srcLine <= |src| - 4 && 0 <= destLine <= dest.Length - 2
    modifies dest
    ensures dest[..] == Stored(old(dest[..]), destLine, ConvertPixel(From32To16, src[srcLine..srcLine + 4]))
  {
    ShortOfLongPacks(src[srcLine], src[srcLine + 1], src[srcLine + 2], src[srcLine + 3]);
    Store16(dest, destLine, ShortOfLong(Load32(src, srcLine)));
  }

  method StorePixel24To32(src: seq<byte>, srcLine: int, dest: array<byte>, destLine: int)
    requires 0 <= srcLine <= |src| - 3 && 0 <= destLine <= dest.Length - 4
    modifies dest
    ensures dest[..] == Stored(old(dest[..]), destLine, ConvertPixel(From24To32, src[srcLine..srcLine + 3]))
  {
    var s, d := srcLine, destLine;
    dest[d + 2] := src[s];
    s, d := s + 1, d + 1;
    dest[d] := src[s];
    s, d := s + 1, d + 1;
    dest[d - 2] := src[s];
    s, d := s + 1, d + 1;
    dest[d] := 0xff;
  }

  method StorePixel24To24(src: seq<byte>, srcLine: int, dest: array<byte>, destLine: int)
    requires 0 <= srcLine <= |src| - 3 && 0 <= destLine <= dest.Length - 3
    modifies dest
    ensures dest[..] == Stored(old(dest[..]), destLine, ConvertPixel(From24To24, src[srcLine..srcLine + 3]))
  {
    var s, d := srcLine, destLine;
    dest[d] := src[s];
    s, d := s + 1, d + 1;
    dest[d] := src[s];
    s, d := s + 1, d + 1;
    dest[d] := src[s];
  }

  method StorePixel24To16(src: seq<byte>, srcLine: int, dest: array<byte>, destLine: int)
    requires 0 <= srcLine <= |src| - 3 && 0 <= destLine <= dest.Length - 2
    modifies dest
    ensures dest[..] == Stored(old(dest[..]), destLine, ConvertPixel(From24To16, src[srcLine..srcLine + 3]))
  {
    var s := srcLine;
    var shortPixel := ((src[s] as half) & 0xf8) << 8;
    s := s + 1;
    shortPixel := shortPixel | (((src[s] as half) & 0xfc) << 3);
    s := s + 1;
    shortPixel := shortPixel | (((src[s] as half) & 0xf8) >> 3);
    assert shortPixel == Pack565(src[srcLine], src[srcLine + 1], src[srcLine + 2]);
    Store16(dest, destLine, shortPixel);
  }

  method StorePixel(c: Conversion, src: seq<byte>, srcLine: int, dest: array<byte>, destLine: int)
    requires 0 <= srcLine <= |src| - SourceBytes(c) && 0 <= destLine <= dest.Length - DestBytes(c)
    modifies dest
    ensures dest[..] == Stored(old(dest[..]), destLine, ConvertPixel(c, src[srcLine..srcLine + SourceBytes(c)]))
  {
    match c
    case From32To32 => StorePixel32To32(src, srcLine, dest, destLine);
    case From32To24 => StorePixel32To24(src, srcLine, dest, destLine);
    case From32To16 => StorePixel32To16(src, srcLine, dest, destLine);
    case From24To32 => StorePixel24To32(src, srcLine, dest, destLine);
    case From24To24 => StorePixel24To24(src, srcLine, dest, destLine);
    case From24To16 => StorePixel24To16(src, srcLine, dest, destLine);
  }

  /** Where the two line pointers stand at a pixel, and where they move from there. */
  lemma PixelWalk(c: Conversion, srcLen: int, destLen: int, row: int, col: int,
                  w: int, h: int, srcWidth: int, destWidth: int)
    requires Fits(c, srcLen, destLen, w, h, srcWidth, destWidth)
    requires 0 <= row < h && 0 <= col < w
    ensures 0 <= Slot(row, col, srcWidth) && 0 <= Slot(row, col, destWidth)
    ensures Slot(row, col, srcWidth) * SourceBytes(c) + SourceBytes(c)
            == Slot(row, col + 1, srcWidth) * SourceBytes(c) <= srcLen
    ensures Slot(row, col, destWidth) * DestBytes(c) + DestBytes(c)
            == Slot(row, col + 1, destWidth) * DestBytes(c) <= destLen
  {
    PixelAddresses(c, srcLen, destLen, row, col, w, h, srcWidth, destWidth);
  }

  lemma LineWalk(c: Conversion, row: int, srcWidth: int, destWidth: int)
    ensures Slot(row, 0, srcWidth) * SourceBytes(c) + srcWidth * SourceBytes(c)
            == Slot(row + 1, 0, srcWidth) * SourceBytes(c)
    ensures Slot(row, 0, destWidth) * DestBytes(c) + destWidth * DestBytes(c)
            == Slot(row + 1, 0, destWidth) * DestBytes(c)
  {
  }

  /** The inner loop: line `row`, starting at the two line pointers. */
  method CopyLine(c: Conversion, src: seq<byte>, srcPtr: int, dest: array<byte>, destPtr: int, ghost row: int,
                  ghost before: seq<byte>, w: int, ghost h: int, ghost srcWidth: int, ghost destWidth: int)
    requires |before| == dest.Length && Fits(c, |src|, |before|, w, h, srcWidth, destWidth) && 0 <= row < h
    requires srcPtr == Slot(row, 0, srcWidth) * SourceBytes(c) && destPtr == Slot(row, 0, destWidth) * DestBytes(c)
    requires ConvertedBefore(c, Slot(row, 0, destWidth), dest[..], before, src, w, h, srcWidth, destWidth)
    modifies dest
    ensures ConvertedBefore(c, Slot(row + 1, 0, destWidth), dest[..], before, src, w, h, srcWidth, destWidth)
  {
    var srcLine, destLine, srcCol := srcPtr, destPtr, 0;
    while srcCol < w
      invariant 0 <= srcCol <= Positive(w)
      invariant srcLine == Slot(row, srcCol, srcWidth) * SourceBytes(c)
      invariant destLine == Slot(row, srcCol, destWidth) * DestBytes(c)
      invariant ConvertedBefore(c, Slot(row, srcCol, destWidth), dest[..], before, src, w, h, srcWidth, destWidth)
    {
      ghost var was := dest[..];
      PixelWalk(c, |src|, dest.Length, row, srcCol, w, h, srcWidth, destWidth);
      StorePixel(c, src, srcLine, dest, destLine);
      PixelStored(c, row, srcCol, was, dest[..], before, src, w, h, srcWidth, destWidth);
      srcLine, destLine := srcLine + SourceBytes(c), destLine + DestBytes(c);
      srcCol := srcCol + 1;
    }
    LineDone(c, row, dest[..], before, src, w, h, srcWidth, destWidth);
  }

  /** The six `copy_pix_map_*` functions: one nested walk, whose innermost body is the conversion's own. */
  method CopyPixMap(c: Conversion, src: seq<byte>, w: int, h: int, srcWidth: int, dest: array<byte>, destWidth: int)
    requires Fits(c, |src|, dest.Length, w, h, srcWidth, destWidth)
    modifies dest
    ensures dest[..] == Converted(c, old(dest[..]), src, w, h, srcWidth, destWidth)
  {
    ghost var before := dest[..];
    var srcIncrement, destIncrement := srcWidth * SourceBytes(c), destWidth * DestBytes(c);
    var srcPtr, destPtr, srcRow := 0, 0, 0;
    while srcRow < h
      invariant 0 <= srcRow <= Positive(h)
      invariant srcPtr == Slot(srcRow, 0, srcWidth) * SourceBytes(c)
      invariant destPtr == Slot(srcRow, 0, destWidth) * DestBytes(c)
      invariant ConvertedBefore(c, Slot(srcRow, 0, destWidth), dest[..], before, src, w, h, srcWidth, destWidth)
    {
      CopyLine(c, src, srcPtr, dest, destPtr, srcRow, before, w, h, srcWidth, destWidth);
      LineWalk(c, srcRow, srcWidth, destWidth);
      srcPtr, destPtr := srcPtr + srcIncrement, destPtr + destIncrement;
      srcRow := srcRow + 1;
    }
    AllLinesDone(c, dest[..], before, src, w, h, srcWidth, destWidth);
  }

  // ----- what a conversion means -----

  /** Every active pixel is the converted source pixel with the same coordinates. */
  lemma ConvertedPixel(c: Conversion, before: seq<byte>, src: seq<byte>,
                       w: int, h: int, srcWidth: int, destWidth: int, row: int, col: int)
    requires Fits(c, |src|, |before|, w, h, srcWidth, destWidth)
    requires 0 <= row < h && 0 <= col < w
    ensures 0 <= Slot(row, col, srcWidth) && (Slot(row, col, srcWidth) + 1) * SourceBytes(c) <= |src|
    ensures 0 <= Slot(row, col, destWidth) * DestBytes(c) <= |before| - DestBytes(c)
    ensures var at := Slot(row, col, destWidth) * DestBytes(c);
            Converted(c, before, src, w, h, srcWidth, destWidth)[at..at + DestBytes(c)]
            == ConvertPixel(c, PixelAt(src, Slot(row, col, srcWidth), SourceBytes(c)))
  {
    hide ConvertPixel, PixelAt, SourceBytes, DestBytes, Extent;
    PixelAddresses(c, |src|, |before|, row, col, w, h, srcWidth, destWidth);
    SlotIsActive(row, col, w, h, destWidth);
    var at := Slot(row, col, destWidth) * DestBytes(c);
    forall k | at <= k < at + DestBytes(c)
      ensures Converted(c, before, src, w, h, srcWidth, destWidth)[k]
              == ConvertPixel(c, PixelAt(src, Slot(row, col, srcWidth), SourceBytes(c)))[k - at]
    {
      SlotOfByte(c, Slot(row, col, destWidth), k);
    }
  }

  /** Byte `d` on of a map of `destBytes`-byte pixels holds what byte `s` on of a map of `sourceBytes`-byte pixels says:
      R, G, B and what follows in 32-bit and 24-bit maps, but B, G, R and 0xff where a 32-bit map is made of a 24-bit
      one, and R(5):G(6):B(5), low byte first, in 16-bit maps. */
  predicate Holds(sourceBytes: int, destBytes: int, dest: seq<byte>, d: int, src: seq<byte>, s: int) {
    && 3 <= sourceBytes <= 4 && 2 <= destBytes <= 4
    && 0 <= d && d + destBytes <= |dest| && 0 <= s && s + sourceBytes <= |src|
    && if destBytes == 2 then
         && dest[d] == ((src[s + 1] & 0x1c) << 3) | (src[s + 2] >> 3)
         && dest[d + 1] == (src[s] & 0xf8) | (src[s + 1] >> 5)
       else if destBytes == 4 && sourceBytes == 3 then
         dest[d] == src[s + 2] && dest[d + 1] == src[s + 1] && dest[d + 2] == src[s] && dest[d + 3] == 0xff
       else
         && dest[d] == src[s] && dest[d + 1] == src[s + 1] && dest[d + 2] == src[s + 2]
         && (destBytes == 4 ==> dest[d + 3] == src[s + 3])
  }

  lemma PackedBytes(r: byte, g: byte, b: byte)
    ensures Bytes16(Pack565(r, g, b)) == [((g & 0x1c) << 3) | (b >> 3), (r & 0xf8) | (g >> 5)]
  {
  }

  lemma ConvertedPixelHolds(c: Conversion, p: seq<byte>)
    requires |p| == SourceBytes(c)
    ensures Holds(SourceBytes(c), DestBytes(c), ConvertPixel(c, p), 0, p, 0)
  {
    hide Pack565, Bytes16;
    if DestBytes(c) == 2 {
      PackedBytes(p[0], p[1], p[2]);
    }
  }

  lemma HoldsInside(sourceBytes: int, destBytes: int, dest: seq<byte>, d: int, src: seq<byte>, s: int)
    requires 0 <= sourceBytes && 0 <= destBytes
    requires 0 <= d && d + destBytes <= |dest| && 0 <= s && s + sourceBytes <= |src|
    requires Holds(sourceBytes, destBytes, dest[d..d + destBytes], 0, src[s..s + sourceBytes], 0)
    ensures Holds(sourceBytes, destBytes, dest, d, src, s)
  {
    var p, q := src[s..s + sourceBytes], dest[d..d + destBytes];
    assert p[0] == src[s] && p[1] == src[s + 1] && p[2] == src[s + 2];
    assert q[0] == dest[d] && q[1] == dest[d + 1];
    assert 3 <= destBytes ==> q[2] == dest[d + 2];
    assert 4 <= destBytes ==> q[3] == dest[d + 3];
    assert 4 <= sourceBytes ==> p[3] == src[s + 3];
  }

  lemma PixelHolds(c: Conversion, dest: seq<byte>, d: int, src: seq<byte>, s: int)
    requires 0 <= d && d + DestBytes(c) <= |dest| && 0 <= s && s + SourceBytes(c) <= |src|
    requires dest[d..d + DestBytes(c)] == ConvertPixel(c, src[s..s + SourceBytes(c)])
    ensures Holds(SourceBytes(c), DestBytes(c), dest, d, src, s)
  {
    hide ConvertPixel;
    ConvertedPixelHolds(c, src[s..s + SourceBytes(c)]);
    HoldsInside(SourceBytes(c), DestBytes(c), dest, d, src, s);
  }

  /** After a conversion the bytes of every active pixel are those of the source pixel with the same coordinates, in the
      order of the two formats. */
  lemma ConvertedBytes(c: Conversion, before: seq<byte>, src: seq<byte>,
                       w: int, h: int, srcWidth: int, destWidth: int, row: int, col: int)
    requires Fits(c, |src|, |before|, w, h, srcWidth, destWidth)
    requires 0 <= row < h && 0 <= col < w
    ensures Holds(SourceBytes(c), DestBytes(c),
                  Converted(c, before, src, w, h, srcWidth, destWidth), Slot(row, col, destWidth) * DestBytes(c),
                  src, Slot(row, col, srcWidth) * SourceBytes(c))
  {
    hide Converted, Fits, Holds, ConvertPixel, Slot;
    ConvertedPixel(c, before, src, w, h, srcWidth, destWidth, row, col);
    PixelHolds(c, Converted(c, before, src, w, h, srcWidth, destWidth), Slot(row, col, destWidth) * DestBytes(c),
               src, Slot(row, col, srcWidth) * SourceBytes(c));
  }

  /** A byte outside every active pixel, line padding above all, keeps its value. */
  lemma PaddingKept(c: Conversion, before: seq<byte>, src: seq<byte>,
                    w: int, h: int, srcWidth: int, destWidth: int, k: int)
    requires Fits(c, |src|, |before|, w, h, srcWidth, destWidth)
    requires 0 <= k < |before|
    requires forall row, col :: 0 <= row < h && 0 <= col < w ==>
               !(Slot(row, col, destWidth) * DestBytes(c) <= k < (Slot(row, col, destWidth) + 1) * DestBytes(c))
    ensures Converted(c, before, src, w, h, srcWidth, destWidth)[k] == before[k]
  {
    var p := k / DestBytes(c);
    if Active(p, w, h, destWidth) {
      ActiveIsSlot(p, w, h, destWidth);
      SlotOfByte(c, p, k);
    }
  }

  /** Two conversions in a row: the pixel in an active slot has gone through both. */
  lemma ConvertedTwice(c1: Conversion, c2: Conversion, d0: seq<byte>, m0: seq<byte>, src: seq<byte>,
                       w: int, h: int, srcWidth: int, midWidth: int, destWidth: int, p: int)
    requires DestBytes(c1) == SourceBytes(c2)
    requires Fits(c1, |src|, |m0|, w, h, srcWidth, midWidth) && Fits(c2, |m0|, |d0|, w, h, midWidth, destWidth)
    requires Active(p, w, h, destWidth)
    ensures var s, m := SourceSlot(p, srcWidth, destWidth), SourceSlot(p, midWidth, destWidth);
            0 <= s && (s + 1) * SourceBytes(c1) <= |src| && 0 <= m && (m + 1) * SourceBytes(c2) <= |m0|
            && PixelAt(Converted(c1, m0, src, w, h, srcWidth, midWidth), m, SourceBytes(c2))
               == ConvertPixel(c1, PixelAt(src, s, SourceBytes(c1)))
  {
    ActiveIsSlot(p, w, h, destWidth);
    PixelAddresses(c1, |src|, |m0|, p / destWidth, p % destWidth, w, h, srcWidth, midWidth);
    ConvertedPixel(c1, m0, src, w, h, srcWidth, midWidth, p / destWidth, p % destWidth);
  }

  /** 32 to 16 directly is 32 to 24 followed by 24 to 16: for every image, size, and choice of line widths. */
  lemma ConversionsCommute(d0: seq<byte>, m0: seq<byte>, src: seq<byte>,
                           w: int, h: int, srcWidth: int, midWidth: int, destWidth: int)
    requires Fits(From32To24, |src|, |m0|, w, h, srcWidth, midWidth)
    requires Fits(From24To16, |m0|, |d0|, w, h, midWidth, destWidth)
    ensures Converted(From24To16, d0, Converted(From32To24, m0, src, w, h, srcWidth, midWidth),
                      w, h, midWidth, destWidth)
            == Converted(From32To16, d0, src, w, h, srcWidth, destWidth)
  {
    var mid := Converted(From32To24, m0, src, w, h, srcWidth, midWidth);
    forall k | 0 <= k < |d0|
      ensures ByteAfter(From24To16, d0, mid, w, h, midWidth, destWidth, k)
              == ByteAfter(From32To16, d0, src, w, h, srcWidth, destWidth, k)
    {
      if Active(k / 2, w, h, destWidth) {
        ConvertedTwice(From32To24, From24To16, d0, m0, src, w, h, srcWidth, midWidth, destWidth, k / 2);
      }
    }
  }

  lemma Pack565Turned(r: byte, g: byte, b: byte)
    ensures Bytes16(Pack565(b, g, r)) == Bytes16(Pack565(r, g, b)) <==> r >> 3 == b >> 3
  {
    var p, q := Pack565(r, g, b), Pack565(b, g, r);
    assert p == q <==> r >> 3 == b >> 3;
    assert Bytes16(p)[0] == Bytes16(q)[0] && Bytes16(p)[1] == Bytes16(q)[1] ==> p == q;
  }

  /** All pixels of a 24-bit map agree on the five bits of red and blue that a 16-bit pixel keeps. */
  ghost predicate RedMatchesBlue(src: seq<byte>, w: int, h: int, srcWidth: int)
    requires w <= srcWidth && Extent(w, h, srcWidth) * 3 <= |src|
  {
    forall row, col {:trigger Slot(row, col, srcWidth)} :: 0 <= row < h && 0 <= col < w ==>
      (SlotIsActive(row, col, w, h, srcWidth);
       src[Slot(row, col, srcWidth) * 3] >> 3 == src[Slot(row, col, srcWidth) * 3 + 2] >> 3)
  }

  /** Both ways to one pixel, compared. */
  lemma DetourOfPixel(d0: seq<byte>, m0: seq<byte>, src: seq<byte>,
                      w: int, h: int, srcWidth: int, midWidth: int, destWidth: int, row: int, col: int)
    requires Fits(From24To32, |src|, |m0|, w, h, srcWidth, midWidth)
    requires Fits(From32To16, |m0|, |d0|, w, h, midWidth, destWidth)
    requires 0 <= row < h && 0 <= col < w
    ensures var s, at := Slot(row, col, srcWidth) * 3, Slot(row, col, destWidth) * 2;
            && 0 <= s <= |src| - 3 && 0 <= at <= |d0| - 2
            && (Detour(d0, m0, src, w, h, srcWidth, midWidth, destWidth)[at..at + 2]
                == Converted(From24To16, d0, src, w, h, srcWidth, destWidth)[at..at + 2]
                <==> src[s] >> 3 == src[s + 2] >> 3)
  {
    hide Converted, Slot, Extent, Pack565, Bytes16;
    var mid := Converted(From24To32, m0, src, w, h, srcWidth, midWidth);
    ConvertedPixel(From24To16, d0, src, w, h, srcWidth, destWidth, row, col);
    ConvertedPixel(From32To16, d0, mid, w, h, midWidth, destWidth, row, col);
    ConvertedPixel(From24To32, m0, src, w, h, srcWidth, midWidth, row, col);
    var s := Slot(row, col, srcWidth) * 3;
    Pack565Turned(src[s], src[s + 1], src[s + 2]);
  }

  /** The way from 24 to 16 bits through a 32-bit map. */
  function Detour(d0: seq<byte>, m0: seq<byte>, src: seq<byte>,
                  w: int, h: int, srcWidth: int, midWidth: int, destWidth: int): (d: seq<byte>)
    requires Fits(From24To32, |src|, |m0|, w, h, srcWidth, midWidth)
    requires Fits(From32To16, |m0|, |d0|, w, h, midWidth, destWidth)
    ensures |d| == |d0|
  {
    Converted(From32To16, d0, Converted(From24To32, m0, src, w, h, srcWidth, midWidth), w, h, midWidth, destWidth)
  }

  lemma DetourOfByte(d0: seq<byte>, m0: seq<byte>, src: seq<byte>,
                     w: int, h: int, srcWidth: int, midWidth: int, destWidth: int, k: int)
    requires Fits(From24To32, |src|, |m0|, w, h, srcWidth, midWidth)
    requires Fits(From32To16, |m0|, |d0|, w, h, midWidth, destWidth)
    requires RedMatchesBlue(src, w, h, srcWidth) && 0 <= k < |d0|
    ensures Detour(d0, m0, src, w, h, srcWidth, midWidth, destWidth)[k]
            == Converted(From24To16, d0, src, w, h, srcWidth, destWidth)[k]
  {
    hide Slot, Extent, ConvertPixel, PixelAt;
    if Active(k / 2, w, h, destWidth) {
      ActiveIsSlot(k / 2, w, h, destWidth);
      var row, col, at := (k / 2) / destWidth, (k / 2) % destWidth, k - k % 2;
      DetourOfPixel(d0, m0, src, w, h, srcWidth, midWidth, destWidth, row, col);
      var detour := Detour(d0, m0, src, w, h, srcWidth, midWidth, destWidth);
      var direct := Converted(From24To16, d0, src, w, h, srcWidth, destWidth);
      assert detour[k] == detour[at..at + 2][k - at] && direct[k] == direct[at..at + 2][k - at];
    }
  }

  /** The way through 32 bits turns red and blue round, so it meets the direct way exactly when nothing shows it. */
  lemma DetourAgrees(d0: seq<byte>, m0: seq<byte>, src: seq<byte>,
                     w: int, h: int, srcWidth: int, midWidth: int, destWidth: int)
    requires Fits(From24To32, |src|, |m0|, w, h, srcWidth, midWidth)
    requires Fits(From32To16, |m0|, |d0|, w, h, midWidth, destWidth)
    ensures Detour(d0, m0, src, w, h, srcWidth, midWidth, destWidth)
            == Converted(From24To16, d0, src, w, h, srcWidth, destWidth)
            <==> RedMatchesBlue(src, w, h, srcWidth)
  {
    if RedMatchesBlue(src, w, h, srcWidth) {
      forall k | 0 <= k < |d0|
        ensures Detour(d0, m0, src, w, h, srcWidth, midWidth, destWidth)[k]
                == Converted(From24To16, d0, src, w, h, srcWidth, destWidth)[k]
      {
        DetourOfByte(d0, m0, src, w, h, srcWidth, midWidth, destWidth, k);
      }
    } else {
      var row, col :| 0 <= row < h && 0 <= col < w &&
        (SlotIsActive(row, col, w, h, srcWidth);
         src[Slot(row, col, srcWidth) * 3] >> 3 != src[Slot(row, col, srcWidth) * 3 + 2] >> 3);
      DetourOfPixel(d0, m0, src, w, h, srcWidth, midWidth, destWidth, row, col);
    }
  }

  lemma OnePixelFits(c: Conversion)
    ensures Fits(c, SourceBytes(c), DestBytes(c), 1, 1, 1, 1)
  {
    hide SourceBytes, DestBytes, Extent;
    OneSlot();
  }

  lemma OneSlot()
    ensures Extent(1, 1, 1) == 1
  {
    assert Slot(0, 1, 1) == 1;
  }

  /** A map of one pixel, converted. */
  function OnePixel(c: Conversion, pixel: seq<byte>): (q: seq<byte>)
    requires |pixel| == SourceBytes(c)
    ensures |q| == DestBytes(c)
  {
    hide SourceBytes, DestBytes, Fits;
    OnePixelFits(c);
    Converted(c, seq(DestBytes(c), _ => 0), pixel, 1, 1, 1, 1)
  }

  lemma OnePixelConverted(c: Conversion, pixel: seq<byte>)
    requires |pixel| == SourceBytes(c)
    ensures OnePixel(c, pixel) == ConvertPixel(c, pixel)
  {
    hide SourceBytes, DestBytes, Fits, Converted, ConvertPixel;
    OnePixelFits(c);
    ConvertedPixel(c, seq(DestBytes(c), _ => 0), pixel, 1, 1, 1, 1, 0, 0);
    assert Slot(0, 0, 1) == 0;
    assert OnePixel(c, pixel)[0..DestBytes(c)] == OnePixel(c, pixel);
    assert PixelAt(pixel, 0, SourceBytes(c)) == pixel;
  }

  /** One red pixel becomes 0xf800, the red of 5:6:5, directly, and 0x001f, the blue, on the detour. */
  lemma RedTurnsBlue()
    ensures OnePixel(From24To16, [0xff, 0, 0]) == [0x00, 0xf8]
    ensures OnePixel(From32To16, OnePixel(From24To32, [0xff, 0, 0])) == [0x1f, 0x00]
  {
    hide OnePixel;
    OnePixelConverted(From24To16, [0xff, 0, 0]);
    OnePixelConverted(From24To32, [0xff, 0, 0]);
    OnePixelConverted(From32To16, [0, 0, 0xff, 0xff]);
  }
}
