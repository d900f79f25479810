/** gimp_bmp.c, `load_gimp_bmp`: a GIMP image dump becomes a bitmap of a chosen depth. */
module GimpBmp {
  import opened Common
  import opened Memory
  import opened Raster
  import opened PixelMaps

  /** A GIMP image dump: `bytesPerPixel` is 3 for RGB and 4 for RGBA. */
  datatype GimpImage = GimpImage(width: nat, height: nat, bytesPerPixel: nat, pixelData: seq<byte>)

  ghost predicate WellFormed(image: GimpImage) {
    image.width * image.height * image.bytesPerPixel <= |image.pixelData|
  }

  /** Storing an `unsigned int` or `int` in a `short`. */
  function Short(n: int): (s: int)
    ensures -0x8000 <= s < 0x8000 && (n - s) % 0x1_0000 == 0
  {
    (n + 0x8000) % 0x1_0000 - 0x8000
  }

  /** The converter `load_gimp_bmp` calls, none for a pair of formats it does not know. */
  function Converter(bytesPerPixel: nat, outputBits: nat): (c: Option<Conversion>)
    ensures c.Some? <==> (outputBits == 16 || outputBits == 24 || outputBits == 32) && 3 <= bytesPerPixel <= 4
    ensures c.Some? ==> DestBytes(c.value) * 8 == outputBits && SourceBytes(c.value) == bytesPerPixel
  {
    if outputBits == 16 && bytesPerPixel == 4 then Some(From32To16)
    else if outputBits == 16 && bytesPerPixel == 3 then Some(From24To16)
    else if outputBits == 24 && bytesPerPixel == 4 then Some(From32To24)
    else if outputBits == 24 && bytesPerPixel == 3 then Some(From24To24)
    else if outputBits == 32 && bytesPerPixel == 4 then Some(From32To32)
    else if outputBits == 32 && bytesPerPixel == 3 then Some(From24To32)
    else None
  }

  lemma ProductOrder(a: int, b: int, x: int, y: int)
    requires 0 <= a <= x && 0 <= b <= y
    ensures a * b <= x * y
  {
    ProductsInOrder(a, x, b);
    ProductsInOrder(b, y, x);
  }

  /** The sizes kept in shorts never ask for more pixels than the image has. */
  lemma LoadFits(image: GimpImage, c: Conversion)
    requires WellFormed(image) && SourceBytes(c) == image.bytesPerPixel
    ensures var w, h := Short(image.width), Short(image.height);
            Fits(c, |image.pixelData|, image.width * image.height * DestBytes(c), w, h, w, w)
  {
    var w, h := Short(image.width), Short(image.height);
    if 0 < w && 0 < h {
      ProductOrder(w, h, image.width, image.height);
      assert Extent(w, h, w) == w * h;
      ProductsInOrder(w * h, image.width * image.height, SourceBytes(c));
      ProductsInOrder(w * h, image.width * image.height, DestBytes(c));
    } else {
      ProductOrder(0, 0, image.width, image.height);
      ProductsInOrder(0, image.width * image.height, DestBytes(c));
      ProductsInOrder(0, image.width * image.height, SourceBytes(c));
    }
  }

  /** What `load_gimp_bmp` leaves in memory that held `unset`. */
  function Loaded(image: GimpImage, c: Conversion, unset: seq<byte>): seq<byte>
    requires WellFormed(image) && SourceBytes(c) == image.bytesPerPixel
    requires |unset| == image.width * image.height * DestBytes(c)
  {
    LoadFits(image, c);
    var w, h := Short(image.width), Short(image.height);
    Converted(c, unset, image.pixelData, w, h, w, w)
  }

  /** The bitmap data is the image's alone, with no byte left over from `malloc`. */
  ghost predicate FullyDefined(image: GimpImage, c: Conversion)
    requires WellFormed(image) && SourceBytes(c) == image.bytesPerPixel
  {
    forall u: seq<byte>, v: seq<byte>
      | |u| == image.width * image.height * DestBytes(c) && |v| == image.width * image.height * DestBytes(c)
      :: Loaded(image, c, u) == Loaded(image, c, v)
  }

  lemma FittingSizesDefine(image: GimpImage, c: Conversion, u: seq<byte>, v: seq<byte>)
    requires WellFormed(image) && SourceBytes(c) == image.bytesPerPixel
    requires image.width == 0 || image.height == 0 || (image.width <= 0x7fff && image.height <= 0x7fff)
    requires |u| == |v| == image.width * image.height * DestBytes(c)
    ensures Loaded(image, c, u) == Loaded(image, c, v)
  {
    hide Fits;
    LoadFits(image, c);
    forall k | 0 <= k < |u|
      ensures Loaded(image, c, u)[k] == Loaded(image, c, v)[k]
    {
      AllBytesActive(image, c, k);
    }
  }

  lemma AllBytesActive(image: GimpImage, c: Conversion, k: int)
    requires image.width == 0 || image.height == 0 || (image.width <= 0x7fff && image.height <= 0x7fff)
    requires 0 <= k < image.width * image.height * DestBytes(c)
    ensures Active(k / DestBytes(c), Short(image.width), Short(image.height), Short(image.width))
  {
    ByteOfSlot(c, k, image.width * image.height);
    SlotBelow(k / DestBytes(c), image.width, image.height);
  }

  lemma LastByteKept(image: GimpImage, c: Conversion, unset: seq<byte>)
    requires WellFormed(image) && SourceBytes(c) == image.bytesPerPixel
    requires 0 < image.width && 0 < image.height && (0x7fff < image.width || 0x7fff < image.height)
    requires |unset| == image.width * image.height * DestBytes(c) && 0 < |unset|
    ensures Loaded(image, c, unset)[|unset| - 1] == unset[|unset| - 1]
  {
    LoadFits(image, c);
    ByteOfSlot(c, |unset| - 1, image.width * image.height);
    CutSizesMissLast(image.width, image.height);
  }

  lemma CutSizesLeaveGarbage(image: GimpImage, c: Conversion)
    requires WellFormed(image) && SourceBytes(c) == image.bytesPerPixel
    requires 0 < image.width && 0 < image.height && (0x7fff < image.width || 0x7fff < image.height)
    ensures !FullyDefined(image, c)
  {
    hide Loaded, Short;
    ProductOrder(1, 1, image.width, image.height);
    ProductOrder(1, 1, image.width * image.height, DestBytes(c));
    var n := image.width * image.height * DestBytes(c);
    var u: seq<byte>, v: seq<byte> := seq(n, _ => 0), seq(n, _ => 1);
    LastByteKept(image, c, u);
    LastByteKept(image, c, v);
  }

  lemma ShortBelow(n: nat)
    ensures Short(n) <= n
  {
  }

  lemma CutSizesMissLast(width: nat, height: nat)
    requires 0 < width && 0 < height && (0x7fff < width || 0x7fff < height)
    ensures !Active(width * height - 1, Short(width), Short(height), Short(width))
  {
    hide Short;
    ShortBelow(width);
    ShortBelow(height);
    var w, h, last := Short(width), Short(height), width * height - 1;
    if Active(last, w, h, w) {
      ActiveIsSlot(last, w, h, w);
      assert last < w * h;
      if 0x7fff < width {
        ProductOrder(w, h, width - 1, height);
      } else {
        ProductOrder(w, h, width, height - 1);
      }
    }
  }

  /** The data is defined exactly when no size is cut short by its `short` field. */
  lemma DefinedIffSizesFit(image: GimpImage, c: Conversion)
    requires WellFormed(image) && SourceBytes(c) == image.bytesPerPixel
    ensures FullyDefined(image, c)
            <==> image.width == 0 || image.height == 0 || (image.width <= 0x7fff && image.height <= 0x7fff)
  {
    if image.width == 0 || image.height == 0 || (image.width <= 0x7fff && image.height <= 0x7fff) {
      forall u: seq<byte>, v: seq<byte>
        | |u| == image.width * image.height * DestBytes(c) && |v| == image.width * image.height * DestBytes(c)
        ensures Loaded(image, c, u) == Loaded(image, c, v)
      {
        FittingSizesDefine(image, c, u, v);
      }
    } else {
      CutSizesLeaveGarbage(image, c);
    }
  }

  lemma ByteOfSlot(c: Conversion, k: int, slots: int)
    requires 0 <= k < slots * DestBytes(c)
    ensures 0 <= k / DestBytes(c) < slots
    ensures k == slots * DestBytes(c) - 1 ==> k / DestBytes(c) == slots - 1
  {
    match c
    case From32To32 | From24To32 =>
    case From32To24 | From24To24 =>
    case From32To16 | From24To16 =>
  }

  lemma SlotBelow(p: int, w: int, h: int)
    requires 0 < w && 0 <= p < w * h
    ensures Active(p, w, h, w)
  {
    if h <= p / w {
      ProductsInOrder(h, p / w, w);
    }
  }

  /** A row of 32768 pixels: its width is kept as -32768, nothing is converted, and the data is what `malloc` found. */
  lemma RowTooWide()
    ensures var image := GimpImage(0x8000, 1, 3, seq(0x18000, _ => 0));
            WellFormed(image) && !FullyDefined(image, From24To32)
  {
    DefinedIffSizesFit(GimpImage(0x8000, 1, 3, seq(0x18000, _ => 0)), From24To32);
  }

  /** The bitmap data holds every pixel of the image, in the order of the two formats. */
  ghost predicate HoldsImage(data: seq<byte>, image: GimpImage, outputBytes: int) {
    forall q :: 0 <= q < image.width * image.height ==>
      Holds(image.bytesPerPixel, outputBytes, data, q * outputBytes, image.pixelData, q * image.bytesPerPixel)
  }

  lemma LoadedHolds(image: GimpImage, c: Conversion, unset: seq<byte>)
    requires WellFormed(image) && SourceBytes(c) == image.bytesPerPixel
    requires image.width <= 0x7fff && image.height <= 0x7fff
    requires |unset| == image.width * image.height * DestBytes(c)
    ensures HoldsImage(Loaded(image, c, unset), image, DestBytes(c))
  {
    hide Holds, Converted, Fits, WellFormed, Slot, Extent, SourceBytes, DestBytes;
    LoadFits(image, c);
    var w, h := image.width, image.height;
    forall q | 0 <= q < w * h
      ensures Holds(SourceBytes(c), DestBytes(c), Loaded(image, c, unset), q * DestBytes(c), image.pixelData,
                    q * SourceBytes(c))
    {
      SlotBelow(q, w, h);
      ActiveIsSlot(q, w, h, w);
      ConvertedBytes(c, unset, image.pixelData, w, h, w, w, q / w, q % w);
    }
  }

  /** `bitmap_struct`. */
  class Bitmap {
    var biWidth: int
    var biHeight: int
    var biBitCount: int
    var data: array?<byte>

    constructor ()
    {
      data := null;
    }

    /** `load_gimp_bmp`, where `found` tells whether `malloc` finds the memory it is asked for; it leaves the contents
        of that memory open. */
    method LoadGimpBmp(image: GimpImage, outputBits: nat, found: bool) returns (retCode: int)
      requires WellFormed(image)
      modifies this
      ensures retCode == if found then 0 else -1
      ensures biWidth == Short(image.width) && biHeight == Short(image.height) && biBitCount == Short(outputBits)
      ensures data != null <==> found
      ensures found ==> fresh(data) && data.Length == image.width * image.height * (outputBits / 8)
      ensures var c := Converter(image.bytesPerPixel, outputBits);
              found && c.Some? ==>
                && Fits(c.value, |image.pixelData|, data.Length, biWidth, biHeight, biWidth, biWidth)
                && exists unset: seq<byte> ::
                     && |unset| == data.Length
                     && data[..] == Converted(c.value, unset, image.pixelData, biWidth, biHeight, biWidth, biWidth)
      ensures found && image.width <= 0x7fff && image.height <= 0x7fff && 3 <= image.bytesPerPixel <= 4
              && (outputBits == 16 || outputBits == 24 || outputBits == 32) ==>
                HoldsImage(data[..], image, outputBits / 8)
    {
      retCode := 0;
      var outputBytes := outputBits / 8;
      biWidth, biHeight, biBitCount := Short(image.width), Short(image.height), Short(outputBits);
      if !found {
        data := null;
        return -1;
      }
      ProductOrder(0, 0, image.width, image.height);
      ProductOrder(0, 0, image.width * image.height, outputBytes);
      var block := new byte[image.width * image.height * outputBytes];
      data := block;
      var c := Converter(image.bytesPerPixel, outputBits);
      if c.Some? {
        LoadFits(image, c.value);
        ghost var unset := block[..];
        CopyPixMap(c.value, image.pixelData, biWidth, biHeight, biWidth, block, biWidth);
        assert |unset| == block.Length;
        if image.width <= 0x7fff && image.height <= 0x7fff {
          LoadedHolds(image, c.value, unset);
        }
      }
    }
  }
}
