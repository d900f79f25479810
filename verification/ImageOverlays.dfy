/** hello_ucosii.c: images drawn one over the other at one place, as each click draws a transport image over the version
    that was there. */
module ImageOverlays {
  import opened Common
  import opened Memory
  import opened Raster
  import opened Overlays
  import opened GimpBmp
  import opened DrawGimps

  ghost predicate SameSize(a: GimpImage, b: GimpImage) {
    Drawable(a) && Drawable(b) && a.width == b.width && a.height == b.height
  }

  lemma PixelInside(image: GimpImage, q: int)
    requires Drawable(image) && 0 <= q < image.width * image.height
    ensures (q + 1) * image.bytesPerPixel <= |image.pixelData|
  {
    ProductsInOrder(q + 1, image.width * image.height, image.bytesPerPixel);
  }

  /** The colour of pixel `q` of b over a, `t` being transparent. */
  function TopColor(a: GimpImage, b: GimpImage, t: word, q: int): word
    requires SameSize(a, b) && 0 <= q < a.width * a.height
  {
    PixelInside(a, q);
    PixelInside(b, q);
    if ShownColor(b, q) != t then ShownColor(b, q) else ShownColor(a, q)
  }

  function ChannelOf(color: word, n: int): byte {
    if n == 0 then RedOf(color) else if n == 1 then GreenOf(color) else BlueOf(color)
  }

  /** The RGB dump of b laid over a. */
  function Composite(a: GimpImage, b: GimpImage, t: word): (image: GimpImage)
    requires SameSize(a, b)
    ensures SameSize(a, image)
  {
    ProductsInOrder(0, a.width, a.height);
    GimpImage(a.width, a.height, 3,
              seq(a.width * a.height * 3, k requires 0 <= k < a.width * a.height * 3 =>
                ChannelOf(TopColor(a, b, t, k / 3), k % 3)))
  }

  lemma ShownColorIsLow(image: GimpImage, q: int)
    requires 3 <= image.bytesPerPixel <= 4 && 0 <= q && (q + 1) * image.bytesPerPixel <= |image.pixelData|
    ensures Low24(ShownColor(image, q)) == ShownColor(image, q)
  {
    var at := q * image.bytesPerPixel;
    RgbChannels(image.pixelData[at], image.pixelData[at + 1], image.pixelData[at + 2]);
    RgbChannels(image.pixelData[at + 2], image.pixelData[at + 1], image.pixelData[at]);
  }

  lemma CompositePixel(a: GimpImage, b: GimpImage, t: word, q: int)
    requires SameSize(a, b) && 0 <= q < a.width * a.height
    ensures (q + 1) * 3 <= |Composite(a, b, t).pixelData|
    ensures ShownColor(Composite(a, b, t), q) == TopColor(a, b, t, q)
  {
    hide RedOf, GreenOf, BlueOf, Rgb, Low24, ShownColor, TopColor;
    PixelInside(Composite(a, b, t), q);
    CompositeBytes(a, b, t, q);
    TopColorIsLow(a, b, t, q);
    ColorOfChannels(TopColor(a, b, t, q));
    ColorOfRgb(Composite(a, b, t), q);
  }

  lemma CompositeBytes(a: GimpImage, b: GimpImage, t: word, q: int)
    requires SameSize(a, b) && 0 <= q < a.width * a.height
    ensures var data, color := Composite(a, b, t).pixelData, TopColor(a, b, t, q);
            (q + 1) * 3 <= |data| && data[q * 3..q * 3 + 3] == [RedOf(color), GreenOf(color), BlueOf(color)]
  {
    hide RedOf, GreenOf, BlueOf, TopColor;
  }

  lemma TopColorIsLow(a: GimpImage, b: GimpImage, t: word, q: int)
    requires SameSize(a, b) && 0 <= q < a.width * a.height
    ensures Low24(TopColor(a, b, t, q)) == TopColor(a, b, t, q)
  {
    hide ShownColor, Low24;
    PixelInside(a, q);
    PixelInside(b, q);
    ShownColorIsLow(a, q);
    ShownColorIsLow(b, q);
  }

  lemma ColorOfRgb(image: GimpImage, q: int)
    requires image.bytesPerPixel == 3 && 0 <= q && (q + 1) * 3 <= |image.pixelData|
    ensures var p := image.pixelData[q * 3..q * 3 + 3]; ShownColor(image, q) == Rgb(p[0], p[1], p[2])
  {
    hide Rgb;
  }

  /** Drawing b after a, at one place, draws b laid over a. */
  lemma CompositeLayer(a: GimpImage, b: GimpImage, x: int, y: int, screenWidth: int, t: word)
    requires SameSize(a, b)
    ensures PlacedLayer(Placed(a, x, y), screenWidth, t) + PlacedLayer(Placed(b, x, y), screenWidth, t)
            == PlacedLayer(Placed(Composite(a, b, t), x, y), screenWidth, t)
  {
    hide ShownColor, Composite;
    var c, w, h := Composite(a, b, t), a.width, a.height;
    forall p | Active(p, w, h, screenWidth)
      ensures ImageColor(c, w, h, screenWidth, p)
              == if ImageColor(b, w, h, screenWidth, p) != t then ImageColor(b, w, h, screenWidth, p)
                 else ImageColor(a, w, h, screenWidth, p)
    {
      ActiveIsSlot(p, w, h, screenWidth);
      SlotIsActive(p / screenWidth, p % screenWidth, w, h, w);
      assert Extent(w, h, w) == w * h;
      CompositePixel(a, b, t, Slot(p / screenWidth, p % screenWidth, w));
    }
  }

  ghost predicate OneSize(first: GimpImage, later: seq<GimpImage>) {
    Drawable(first) && forall image :: image in later ==> SameSize(first, image)
  }

  /** An image with several others of its size drawn over it. */
  function CompositeAll(first: GimpImage, later: seq<GimpImage>, t: word): (image: GimpImage)
    requires OneSize(first, later)
    ensures SameSize(first, image)
  {
    hide GimpBmp.WellFormed;
    if later == [] then first
    else
      assert later[|later| - 1] in later;
      Composite(CompositeAll(first, later[..|later| - 1], t), later[|later| - 1], t)
  }

  function AllAt(images: seq<GimpImage>, x: int, y: int): (placed: seq<Placed>)
    requires forall image :: image in images ==> Drawable(image)
    ensures |placed| == |images| && forall i :: 0 <= i < |images| ==> placed[i] == Placed(images[i], x, y)
    ensures forall p :: p in placed ==> Drawable(p.image)
  {
    seq(|images|, i requires 0 <= i < |images| => Placed(images[i], x, y))
  }

  /** However often a place is redrawn, the frame is what one drawing of the composite makes of it. */
  lemma {:induction false} RedrawsAreOneDrawing(frame: Picture, first: GimpImage, later: seq<GimpImage>, x: int, y: int,
                                                screenWidth: int, t: word)
    requires OneSize(first, later)
    ensures OverlayAll(frame, Layers(AllAt([first] + later, x, y), screenWidth, t))
            == Overlay(frame, PlacedLayer(Placed(CompositeAll(first, later, t), x, y), screenWidth, t))
  {
    hide PlacedLayer, Composite, Overlay, GimpBmp.WellFormed;
    var layers := Layers(AllAt([first] + later, x, y), screenWidth, t);
    if later == [] {
      assert [first] + later == [first];
      assert layers[..0] == [];
    } else {
      var front, last := later[..|later| - 1], later[|later| - 1];
      RedrawsAreOneDrawing(frame, first, front, x, y, screenWidth, t);
      assert layers[..|layers| - 1] == Layers(AllAt([first] + front, x, y), screenWidth, t);
      var under := CompositeAll(first, front, t);
      assert last in later;
      CompositeLayer(under, last, x, y, screenWidth, t);
      OverlayTwice(frame, PlacedLayer(Placed(under, x, y), screenWidth, t),
                   PlacedLayer(Placed(last, x, y), screenWidth, t));
    }
  }

  // ----- what is left of the image underneath -----

  /** What pixel (row, col) of a dump shows. */
  function ColorAt(image: GimpImage, row: int, col: int): word
    requires Drawable(image) && 0 <= row < image.height && 0 <= col < image.width
  {
    ImagePixelInside(image, row, col);
    ShownColor(image, Slot(row, col, image.width))
  }

  /** The image gives screen coordinate (x, y) a colour. */
  predicate Paints(p: Placed, x: int, y: int, t: word)
    requires Drawable(p.image)
  {
    Covers(p, x, y) && ColorAt(p.image, y - p.y, x - p.x) != t
  }

  lemma LayerAt(p: Placed, screenWidth: int, t: word, x: int, y: int)
    requires OnLines(p, screenWidth) && 0 <= x < screenWidth
    ensures Slot(y, x, screenWidth) in PlacedLayer(p, screenWidth, t) <==> Paints(p, x, y, t)
    ensures Paints(p, x, y, t) ==>
              PlacedLayer(p, screenWidth, t)[Slot(y, x, screenWidth)] == ColorAt(p.image, y - p.y, x - p.x)
  {
    var k := Slot(y, x, screenWidth);
    SlotSplits(y, x, screenWidth);
    if Covers(p, x, y) {
      SlotIsActive(y - p.y, x - p.x, p.image.width, p.image.height, screenWidth);
      RectSlot(p.x, p.y, x - p.x, y - p.y, screenWidth);
      assert InRect(k, Slot(p.y, p.x, screenWidth), p.image.width, p.image.height, screenWidth);
    } else if k in PlacedLayer(p, screenWidth, t) {
      LayerCovers(p, screenWidth, t, k);
    }
  }

  /** At (x, y) the image drawn over the other leaves a trace of it. */
  predicate Trace(frame: Picture, under: Placed, over: Placed, screenWidth: int, t: word, x: int, y: int)
    requires Drawable(under.image) && Drawable(over.image)
  {
    && Paints(under, x, y, t)
    && !Paints(over, x, y, t)
    && 0 <= Slot(y, x, screenWidth) < |frame|
    && ColorAt(under.image, y - under.y, x - under.x) != frame[Slot(y, x, screenWidth)]
  }

  lemma TraceIsSeen(frame: Picture, under: Placed, over: Placed, screenWidth: int, t: word, x: int, y: int)
    requires OnLines(under, screenWidth) && OnLines(over, screenWidth)
    requires Trace(frame, under, over, screenWidth, t, x, y)
    ensures var a, b := PlacedLayer(under, screenWidth, t), PlacedLayer(over, screenWidth, t);
            var k := Slot(y, x, screenWidth);
            k in a && 0 <= k < |frame| && a[k] != frame[k] && k !in b
  {
    hide PlacedLayer, ColorAt;
    LayerAt(under, screenWidth, t, x, y);
    LayerAt(over, screenWidth, t, x, y);
  }

  lemma SeenIsTrace(frame: Picture, under: Placed, over: Placed, screenWidth: int, t: word, k: int)
    requires OnLines(under, screenWidth) && OnLines(over, screenWidth)
    requires var a, b := PlacedLayer(under, screenWidth, t), PlacedLayer(over, screenWidth, t);
             k in a && 0 <= k < |frame| && a[k] != frame[k] && k !in b
    ensures 0 < screenWidth && Trace(frame, under, over, screenWidth, t, k % screenWidth, k / screenWidth)
  {
    hide PlacedLayer, Paints, ColorAt;
    LayerCovers(under, screenWidth, t, k);
    assert k == Slot(k / screenWidth, k % screenWidth, screenWidth);
    LayerAt(under, screenWidth, t, k % screenWidth, k / screenWidth);
    LayerAt(over, screenWidth, t, k % screenWidth, k / screenWidth);
  }

  /** A redraw shows what a first drawing would show exactly when no pixel of the image underneath is seen: wherever
      that image gave the frame a new colour, the new image gives one. */
  lemma RedrawForgets(frame: Picture, under: Placed, over: Placed, screenWidth: int, t: word)
    requires OnLines(under, screenWidth) && OnLines(over, screenWidth)
    ensures Overlay(Overlay(frame, PlacedLayer(under, screenWidth, t)), PlacedLayer(over, screenWidth, t))
            == Overlay(frame, PlacedLayer(over, screenWidth, t))
            <==> forall x, y :: !Trace(frame, under, over, screenWidth, t, x, y)
  {
    hide PlacedLayer, Trace, Overlay;
    var a, b := PlacedLayer(under, screenWidth, t), PlacedLayer(over, screenWidth, t);
    LayersForget(frame, a, b);
    if forall k :: k in a && 0 <= k < |frame| && a[k] != frame[k] ==> k in b {
      forall x, y
        ensures !Trace(frame, under, over, screenWidth, t, x, y)
      {
        if Trace(frame, under, over, screenWidth, t, x, y) {
          TraceIsSeen(frame, under, over, screenWidth, t, x, y);
        }
      }
    } else {
      var k :| k in a && 0 <= k < |frame| && a[k] != frame[k] && k !in b;
      SeenIsTrace(frame, under, over, screenWidth, t, k);
    }
  }

  /** Pixel (row, col) of an image drawn at (x, y) is not seen under another image of its size. */
  predicate Forgotten(frame: Picture, a: GimpImage, b: GimpImage, x: int, y: int, screenWidth: int, t: word,
                      row: int, col: int)
    requires SameSize(a, b) && 0 <= row < a.height && 0 <= col < a.width
  {
    var at := Slot(y + row, x + col, screenWidth);
    ColorAt(b, row, col) == t && 0 <= at < |frame| ==> ColorAt(a, row, col) == t || ColorAt(a, row, col) == frame[at]
  }

  /** Of two images of one size, drawn at one place as the released and pressed versions of a transport image are, the
      second hides the first exactly when every pixel that is transparent in the second was so in the first, or had the
      colour already in the frame. */
  lemma RedrawForgetsVersion(frame: Picture, a: GimpImage, b: GimpImage, x: int, y: int, screenWidth: int, t: word)
    requires SameSize(a, b) && 0 <= x && x + a.width <= screenWidth
    ensures Overlay(Overlay(frame, PlacedLayer(Placed(a, x, y), screenWidth, t)),
                    PlacedLayer(Placed(b, x, y), screenWidth, t))
            == Overlay(frame, PlacedLayer(Placed(b, x, y), screenWidth, t))
            <==> forall row, col :: 0 <= row < a.height && 0 <= col < a.width ==>
                   Forgotten(frame, a, b, x, y, screenWidth, t, row, col)
  {
    hide PlacedLayer, Overlay, ColorAt, Slot;
    var under, over := Placed(a, x, y), Placed(b, x, y);
    RedrawForgets(frame, under, over, screenWidth, t);
    forall row, col | 0 <= row < a.height && 0 <= col < a.width
      ensures Forgotten(frame, a, b, x, y, screenWidth, t, row, col)
              <==> !Trace(frame, under, over, screenWidth, t, x + col, y + row)
    {
    }
    forall u, v | Trace(frame, under, over, screenWidth, t, u, v)
      ensures !Forgotten(frame, a, b, x, y, screenWidth, t, v - y, u - x)
    {
    }
  }

  lemma SeenOnSomeFrame(n: int, a: GimpImage, b: GimpImage, x: int, y: int, screenWidth: int, t: word, row: int,
                        col: int)
    requires SameSize(a, b) && 0 <= x && x + a.width <= screenWidth
    requires 0 <= n && InFrame(n, Slot(y, x, screenWidth), a.width, a.height, screenWidth)
    requires 0 <= row < a.height && 0 <= col < a.width && ColorAt(b, row, col) == t && ColorAt(a, row, col) != t
    ensures !Forgotten(seq(n, _ => ColorAt(a, row, col) + 1), a, b, x, y, screenWidth, t, row, col)
  {
    hide ColorAt;
    SlotIsActive(row, col, a.width, a.height, screenWidth);
    RectSlot(x, y, col, row, screenWidth);
  }

  /** It does so on every frame exactly when the second is transparent nowhere but where the first is. */
  lemma RedrawAlwaysForgets(n: int, a: GimpImage, b: GimpImage, x: int, y: int, screenWidth: int, t: word)
    requires SameSize(a, b) && 0 <= x && x + a.width <= screenWidth
    requires 0 <= n && InFrame(n, Slot(y, x, screenWidth), a.width, a.height, screenWidth)
    ensures (forall frame: Picture | |frame| == n ::
               Overlay(Overlay(frame, PlacedLayer(Placed(a, x, y), screenWidth, t)),
                       PlacedLayer(Placed(b, x, y), screenWidth, t))
               == Overlay(frame, PlacedLayer(Placed(b, x, y), screenWidth, t)))
            <==> forall row, col :: 0 <= row < a.height && 0 <= col < a.width && ColorAt(b, row, col) == t ==>
                   ColorAt(a, row, col) == t
  {
    hide PlacedLayer, Overlay, ColorAt, Slot, InFrame;
    forall frame: Picture | |frame| == n
      ensures Overlay(Overlay(frame, PlacedLayer(Placed(a, x, y), screenWidth, t)),
                      PlacedLayer(Placed(b, x, y), screenWidth, t))
              == Overlay(frame, PlacedLayer(Placed(b, x, y), screenWidth, t))
              <==> forall row, col :: 0 <= row < a.height && 0 <= col < a.width ==>
                     Forgotten(frame, a, b, x, y, screenWidth, t, row, col)
    {
      RedrawForgetsVersion(frame, a, b, x, y, screenWidth, t);
    }
    forall row, col
      | 0 <= row < a.height && 0 <= col < a.width && ColorAt(b, row, col) == t && ColorAt(a, row, col) != t
      ensures !Forgotten(seq(n, _ => ColorAt(a, row, col) + 1), a, b, x, y, screenWidth, t, row, col)
    {
      SeenOnSomeFrame(n, a, b, x, y, screenWidth, t, row, col);
    }
  }

  /** An image of one pixel, drawn on a frame of one word. */
  lemma OnePixelDrawn(word0: word, image: GimpImage, t: word)
    requires Drawable(image) && image.width == 1 && image.height == 1
    ensures Overlay([word0], PlacedLayer(Placed(image, 0, 0), 1, t))
            == [if ColorAt(image, 0, 0) != t then ColorAt(image, 0, 0) else word0]
  {
    hide PlacedLayer, ColorAt;
    LayerAt(Placed(image, 0, 0), 1, t, 0, 0);
    assert Slot(0, 0, 1) == 0;
  }

  lemma OnePixelDrawable(pixel: seq<byte>)
    requires |pixel| == 3
    ensures Drawable(GimpImage(1, 1, 3, pixel))
  {
  }

  lemma FirstColor(image: GimpImage)
    requires Drawable(image) && 0 < image.width && 0 < image.height && image.bytesPerPixel == 3
    ensures 3 <= |image.pixelData|
    ensures ColorAt(image, 0, 0) == Rgb(image.pixelData[0], image.pixelData[1], image.pixelData[2])
  {
    hide Rgb, GimpBmp.WellFormed, Slot;
    ImagePixelInside(image, 0, 0);
    FirstSlot(image.width);
  }

  lemma OnePixelColor(r: byte, g: byte, b: byte)
    ensures var image := GimpImage(1, 1, 3, [r, g, b]);
            Drawable(image) && ColorAt(image, 0, 0) == Rgb(r, g, b)
  {
    hide Rgb, Drawable, ColorAt;
    OnePixelDrawable([r, g, b]);
    FirstColor(GimpImage(1, 1, 3, [r, g, b]));
  }

  /** A red pixel stays on the screen when a black one, with black transparent, is drawn over it. */
  lemma RedStaysUnderBlack()
    ensures var red, black := GimpImage(1, 1, 3, [0xff, 0, 0]), GimpImage(1, 1, 3, [0, 0, 0]);
            && Overlay([0], PlacedLayer(Placed(black, 0, 0), 1, 0)) == [0]
            && Overlay(Overlay([0], PlacedLayer(Placed(red, 0, 0), 1, 0)), PlacedLayer(Placed(black, 0, 0), 1, 0))
               == [0xff0000]
  {
    hide PlacedLayer, ColorAt, Overlay, Drawable;
    OnePixelColor(0xff, 0, 0);
    OnePixelColor(0, 0, 0);
    var red, black := GimpImage(1, 1, 3, [0xff, 0, 0]), GimpImage(1, 1, 3, [0, 0, 0]);
    OnePixelDrawn(0, black, 0);
    OnePixelDrawn(0, red, 0);
    OnePixelDrawn(0xff0000, black, 0);
  }
}
