/** hello_ucosii.c: the five transport images through any run of clicks, each of which draws all five anew. */
module TransportClicks {
  import opened Common
  import opened Memory
  import opened Raster
  import opened Overlays
  import opened GimpBmp
  import opened DrawGimps
  import opened ImageOverlays
  import opened SongMachine
  import opened Desktop

  /** The place of an image on the screen. */
  datatype Spot = Spot(x: int, y: int, w: int, h: int)

  predicate InSpot(s: Spot, x: int, y: int) {
    s.x <= x < s.x + s.w && s.y <= y < s.y + s.h
  }

  /** Spots on the lines of a screen, no two of which share a pixel. */
  ghost predicate Laid(spots: seq<Spot>, screenWidth: int) {
    && (forall i :: 0 <= i < |spots| ==> 0 <= spots[i].x && spots[i].x + spots[i].w <= screenWidth)
    && forall i, j, x, y :: 0 <= i < |spots| && 0 <= j < |spots| && i != j && InSpot(spots[i], x, y) ==>
         !InSpot(spots[j], x, y)
  }

  /** One image for every spot. */
  ghost predicate Fill(images: seq<GimpImage>, spots: seq<Spot>) {
    && |images| == |spots|
    && forall i :: 0 <= i < |images| ==>
         Drawable(images[i]) && images[i].width == spots[i].w && images[i].height == spots[i].h
  }

  function LayerAtSpot(image: GimpImage, s: Spot, screenWidth: int, t: word): Layer
    requires Drawable(image)
  {
    PlacedLayer(Placed(image, s.x, s.y), screenWidth, t)
  }

  function SpotLayers(images: seq<GimpImage>, spots: seq<Spot>, screenWidth: int, t: word): (layers: seq<Layer>)
    requires Fill(images, spots)
    ensures |layers| == |images|
    ensures forall i :: 0 <= i < |images| ==> layers[i] == LayerAtSpot(images[i], spots[i], screenWidth, t)
  {
    seq(|images|, i requires 0 <= i < |images| => LayerAtSpot(images[i], spots[i], screenWidth, t))
  }

  /** The frame after all images are drawn, each in its spot. */
  function Drawn(frame: Picture, images: seq<GimpImage>, spots: seq<Spot>, screenWidth: int, t: word): (after: Picture)
    requires Fill(images, spots)
    ensures |after| == |frame|
  {
    OverlayAll(frame, SpotLayers(images, spots, screenWidth, t))
  }

  /** Each image of v laid over that of u. */
  function Over(u: seq<GimpImage>, v: seq<GimpImage>, spots: seq<Spot>, t: word): (images: seq<GimpImage>)
    requires Fill(u, spots) && Fill(v, spots)
    ensures Fill(images, spots)
    ensures forall i :: 0 <= i < |u| ==> SameSize(u[i], v[i]) && images[i] == Composite(u[i], v[i], t)
  {
    hide Drawable, Composite;
    seq(|u|, i requires 0 <= i < |u| => Composite(u[i], v[i], t))
  }

  lemma SpotsAreApart(u: seq<GimpImage>, v: seq<GimpImage>, spots: seq<Spot>, screenWidth: int, t: word)
    requires Laid(spots, screenWidth) && Fill(u, spots) && Fill(v, spots)
    ensures ApartInPairs(SpotLayers(u, spots, screenWidth, t), SpotLayers(v, spots, screenWidth, t))
  {
    hide PlacedLayer, Drawable, SpotLayers;
    var a, b := SpotLayers(u, spots, screenWidth, t), SpotLayers(v, spots, screenWidth, t);
    forall i, k | 0 <= i < |a|
      ensures k in a[i] || k in b[i] ==> 0 < screenWidth && InSpot(spots[i], k % screenWidth, k / screenWidth)
    {
      if k in a[i] {
        LayerCovers(Placed(u[i], spots[i].x, spots[i].y), screenWidth, t, k);
      } else if k in b[i] {
        LayerCovers(Placed(v[i], spots[i].x, spots[i].y), screenWidth, t, k);
      }
    }
  }

  /** Drawing one set of images and then another is drawing their composites once. */
  lemma DrawnOver(frame: Picture, u: seq<GimpImage>, v: seq<GimpImage>, spots: seq<Spot>, screenWidth: int, t: word)
    requires Laid(spots, screenWidth) && Fill(u, spots) && Fill(v, spots)
    ensures Drawn(Drawn(frame, u, spots, screenWidth, t), v, spots, screenWidth, t)
            == Drawn(frame, Over(u, v, spots, t), spots, screenWidth, t)
  {
    hide PlacedLayer, Drawable, OverlayAll, Laid, Composite;
    var a, b := SpotLayers(u, spots, screenWidth, t), SpotLayers(v, spots, screenWidth, t);
    SpotsAreApart(u, v, spots, screenWidth, t);
    PairsDrawn(frame, a, b);
    forall i | 0 <= i < |u|
      ensures a[i] + b[i] == LayerAtSpot(Over(u, v, spots, t)[i], spots[i], screenWidth, t)
    {
      CompositeLayer(u[i], v[i], spots[i].x, spots[i].y, screenWidth, t);
    }
    assert Pairs(a, b) == SpotLayers(Over(u, v, spots, t), spots, screenWidth, t);
  }

  ghost predicate FillAll(run: seq<seq<GimpImage>>, spots: seq<Spot>) {
    forall images :: images in run ==> Fill(images, spots)
  }

  /** The frame after a whole run of such drawings. */
  function DrawnAll(frame: Picture, run: seq<seq<GimpImage>>, spots: seq<Spot>, screenWidth: int, t: word):
    (after: Picture)
    requires FillAll(run, spots)
    ensures |after| == |frame|
  {
    if run == [] then frame
    else
      assert run[|run| - 1] in run;
      Drawn(DrawnAll(frame, run[..|run| - 1], spots, screenWidth, t), run[|run| - 1], spots, screenWidth, t)
  }

  function OverAll(first: seq<GimpImage>, later: seq<seq<GimpImage>>, spots: seq<Spot>, t: word):
    (images: seq<GimpImage>)
    requires Fill(first, spots) && FillAll(later, spots)
    ensures Fill(images, spots)
  {
    if later == [] then first
    else
      assert later[|later| - 1] in later;
      Over(OverAll(first, later[..|later| - 1], spots, t), later[|later| - 1], spots, t)
  }

  /** However many times the spots are redrawn, the frame is what one drawing of the composites makes of it. */
  lemma {:induction false} RunIsOneDrawing(frame: Picture, first: seq<GimpImage>, later: seq<seq<GimpImage>>,
                                           spots: seq<Spot>, screenWidth: int, t: word)
    requires Laid(spots, screenWidth) && Fill(first, spots) && FillAll(later, spots)
    ensures DrawnAll(Drawn(frame, first, spots, screenWidth, t), later, spots, screenWidth, t)
            == Drawn(frame, OverAll(first, later, spots, t), spots, screenWidth, t)
  {
    hide Drawn, Over, Laid, Fill;
    if later != [] {
      var front, last := later[..|later| - 1], later[|later| - 1];
      assert last in later;
      RunIsOneDrawing(frame, first, front, spots, screenWidth, t);
      DrawnOver(frame, OverAll(first, front, spots, t), last, spots, screenWidth, t);
    }
  }

  // ----- what is seen in one spot -----

  lemma SpotPlace(s: Spot, screenWidth: int, n: int, row: int, col: int)
    requires 0 <= s.x && s.x + s.w <= screenWidth && InFrame(n, Slot(s.y, s.x, screenWidth), s.w, s.h, screenWidth)
    requires 0 <= row < s.h && 0 <= col < s.w
    ensures 0 <= Slot(s.y + row, s.x + col, screenWidth) < n
  {
    SlotIsActive(row, col, s.w, s.h, screenWidth);
    RectSlot(s.x, s.y, col, row, screenWidth);
  }

  lemma OtherSpots(images: seq<GimpImage>, spots: seq<Spot>, screenWidth: int, t: word, i: nat, x: int, y: int)
    requires Laid(spots, screenWidth) && Fill(images, spots) && i < |spots| && InSpot(spots[i], x, y)
    ensures forall j :: 0 <= j < |spots| && j != i ==>
              Slot(y, x, screenWidth) !in SpotLayers(images, spots, screenWidth, t)[j]
  {
    hide PlacedLayer, Drawable;
    SlotSplits(y, x, screenWidth);
    forall j | 0 <= j < |spots|
      ensures Slot(y, x, screenWidth) in SpotLayers(images, spots, screenWidth, t)[j] ==> InSpot(spots[j], x, y)
    {
      if Slot(y, x, screenWidth) in SpotLayers(images, spots, screenWidth, t)[j] {
        LayerCovers(Placed(images[j], spots[j].x, spots[j].y), screenWidth, t, Slot(y, x, screenWidth));
      }
    }
  }

  /** After the images are drawn, a pixel of a spot shows its image, or what was there where that is transparent. */
  lemma PixelOfSpot(frame: Picture, images: seq<GimpImage>, spots: seq<Spot>, screenWidth: int, t: word, i: nat,
                    row: int, col: int)
    requires Laid(spots, screenWidth) && Fill(images, spots)
    requires i < |spots| && 0 <= row < spots[i].h && 0 <= col < spots[i].w
    requires 0 <= Slot(spots[i].y + row, spots[i].x + col, screenWidth) < |frame|
    ensures var k := Slot(spots[i].y + row, spots[i].x + col, screenWidth);
            Drawn(frame, images, spots, screenWidth, t)[k]
            == if ColorAt(images[i], row, col) != t then ColorAt(images[i], row, col) else frame[k]
  {
    hide PlacedLayer, ColorAt, SpotLayers, OverlayAll, Merged, Drawable, Slot;
    var s := spots[i];
    var k, layers := Slot(s.y + row, s.x + col, screenWidth), SpotLayers(images, spots, screenWidth, t);
    OtherSpots(images, spots, screenWidth, t, i, s.x + col, s.y + row);
    LayerAt(Placed(images[i], s.x, s.y), screenWidth, t, s.x + col, s.y + row);
    MergedOfApart(layers, i, k);
    OverlayAllIsMerged(frame, layers);
  }

  // ----- when the last drawing is all there is to see -----

  /** Two images of one size, transparent at the same pixels. */
  ghost predicate SameHoles(a: GimpImage, b: GimpImage, t: word)
    requires SameSize(a, b)
  {
    forall row, col :: 0 <= row < a.height && 0 <= col < a.width ==>
      (ColorAt(a, row, col) == t <==> ColorAt(b, row, col) == t)
  }

  lemma HolesCovered(a: GimpImage, b: GimpImage, x: int, y: int, screenWidth: int, t: word)
    requires SameSize(a, b) && SameHoles(a, b, t) && 0 <= x && x + a.width <= screenWidth
    ensures PlacedLayer(Placed(a, x, y), screenWidth, t) + PlacedLayer(Placed(b, x, y), screenWidth, t)
            == PlacedLayer(Placed(b, x, y), screenWidth, t)
  {
    hide PlacedLayer, ColorAt, Slot, Drawable;
    var p, q := Placed(a, x, y), Placed(b, x, y);
    forall k | k in PlacedLayer(p, screenWidth, t)
      ensures k in PlacedLayer(q, screenWidth, t)
    {
      LayerCovers(p, screenWidth, t, k);
      SlotOf(k, screenWidth);
      LayerAt(p, screenWidth, t, k % screenWidth, k / screenWidth);
      LayerAt(q, screenWidth, t, k % screenWidth, k / screenWidth);
    }
  }

  lemma SlotOf(k: int, stride: int)
    requires 0 < stride
    ensures Slot(k / stride, k % stride, stride) == k
  {
  }

  lemma DrawnForgets(frame: Picture, u: seq<GimpImage>, v: seq<GimpImage>, spots: seq<Spot>, screenWidth: int, t: word)
    requires Laid(spots, screenWidth) && Fill(u, spots) && Fill(v, spots)
    requires forall i :: 0 <= i < |u| ==> SameHoles(u[i], v[i], t)
    ensures Drawn(Drawn(frame, u, spots, screenWidth, t), v, spots, screenWidth, t)
            == Drawn(frame, v, spots, screenWidth, t)
  {
    hide PlacedLayer, Drawable, OverlayAll, SameHoles;
    var a, b := SpotLayers(u, spots, screenWidth, t), SpotLayers(v, spots, screenWidth, t);
    SpotsAreApart(u, v, spots, screenWidth, t);
    PairsDrawn(frame, a, b);
    forall i | 0 <= i < |u|
      ensures a[i] + b[i] == b[i]
    {
      HolesCovered(u[i], v[i], spots[i].x, spots[i].y, screenWidth, t);
    }
    assert Pairs(a, b) == b;
  }

  // ----- the transport images -----

  const TRANSPORT: seq<Spot> :=
    [Spot(296, 45, 94, 109), Spot(404, 45, 98, 111), Spot(523, 45, 108, 112), Spot(333, 177, 61, 57),
     Spot(512, 177, 61, 57)]

  lemma TransportLaid()
    ensures Laid(TRANSPORT, FRAME_WIDTH)
  {
  }

  /** The images shown when these buttons are pressed. */
  function Versions(up: seq<GimpImage>, down: seq<GimpImage>, pressed: seq<bool>): (images: seq<GimpImage>)
    requires Fill(up, TRANSPORT) && Fill(down, TRANSPORT) && |pressed| == 5
    ensures Fill(images, TRANSPORT)
  {
    seq(5, i requires 0 <= i < 5 => if pressed[i] then down[i] else up[i])
  }

  function LastOf(clicks: seq<Button>): Option<Button> {
    if clicks == [] then None else Some(clicks[|clicks| - 1])
  }

  /** The frame after `init_background` has drawn the released images and some clicks have redrawn all five. */
  function Screen(frame: Picture, up: seq<GimpImage>, down: seq<GimpImage>, clicks: seq<Button>, t: word):
    (after: Picture)
    requires Fill(up, TRANSPORT) && Fill(down, TRANSPORT)
    ensures |after| == |frame|
  {
    var before := if clicks == [] then frame else Screen(frame, up, down, clicks[..|clicks| - 1], t);
    Drawn(before, Versions(up, down, Pressed(LastOf(clicks))), TRANSPORT, FRAME_WIDTH, t)
  }

  /** The five drawings of `init_background` and of a click are those of `DrawGimps.Transport`. */
  lemma DrawnIsTransport(frame: Picture, images: seq<GimpImage>, t: word)
    requires Fill(images, TRANSPORT)
    ensures Drawn(frame, images, TRANSPORT, FRAME_WIDTH, t)
            == OverlayAll(frame, Layers(Transport(images[0], images[1], images[2], images[3], images[4]), FRAME_WIDTH,
                                        t))
  {
    hide PlacedLayer, OverlayAll, Drawable;
    assert SpotLayers(images, TRANSPORT, FRAME_WIDTH, t)
        == Layers(Transport(images[0], images[1], images[2], images[3], images[4]), FRAME_WIDTH, t);
  }

  ghost predicate AllSameHoles(up: seq<GimpImage>, down: seq<GimpImage>, t: word)
    requires Fill(up, TRANSPORT) && Fill(down, TRANSPORT)
  {
    forall i :: 0 <= i < 5 ==> SameHoles(up[i], down[i], t)
  }

  lemma VersionsSameHoles(up: seq<GimpImage>, down: seq<GimpImage>, p: seq<bool>, q: seq<bool>, t: word, i: nat)
    requires Fill(up, TRANSPORT) && Fill(down, TRANSPORT) && AllSameHoles(up, down, t)
    requires |p| == |q| == 5 && i < 5
    ensures SameHoles(Versions(up, down, p)[i], Versions(up, down, q)[i], t)
  {
    hide Drawable, ColorAt;
    assert SameHoles(up[i], down[i], t);
  }

  lemma {:induction false} LastClickShows(frame: Picture, up: seq<GimpImage>, down: seq<GimpImage>, clicks: seq<Button>,
                                          t: word)
    requires Fill(up, TRANSPORT) && Fill(down, TRANSPORT) && AllSameHoles(up, down, t)
    ensures Screen(frame, up, down, clicks, t)
            == Drawn(frame, Versions(up, down, Pressed(LastOf(clicks))), TRANSPORT, FRAME_WIDTH, t)
  {
    hide Drawn, Versions, Drawable, Pressed, AllSameHoles, Laid, SameHoles;
    if clicks != [] {
      var front := clicks[..|clicks| - 1];
      LastClickShows(frame, up, down, front, t);
      var u, v := Versions(up, down, Pressed(LastOf(front))), Versions(up, down, Pressed(LastOf(clicks)));
      forall i | 0 <= i < 5
        ensures SameHoles(u[i], v[i], t)
      {
        VersionsSameHoles(up, down, Pressed(LastOf(front)), Pressed(LastOf(clicks)), t, i);
      }
      TransportLaid();
      DrawnForgets(frame, u, v, TRANSPORT, FRAME_WIDTH, t);
    }
  }

  /** A pixel that one drawing paints and the next leaves open shows the first, whatever was there before both. */
  lemma HoleShows(frame: Picture, other: Picture, u: seq<GimpImage>, v: seq<GimpImage>, spots: seq<Spot>,
                  screenWidth: int, t: word, i: nat, row: int, col: int)
    requires Laid(spots, screenWidth) && Fill(u, spots) && Fill(v, spots)
    requires i < |spots| && 0 <= row < spots[i].h && 0 <= col < spots[i].w
    requires 0 <= Slot(spots[i].y + row, spots[i].x + col, screenWidth) < |frame|
    requires ColorAt(u[i], row, col) != t && ColorAt(v[i], row, col) == t
    requires |other| == |frame|
    ensures var k := Slot(spots[i].y + row, spots[i].x + col, screenWidth);
            && Drawn(Drawn(other, u, spots, screenWidth, t), v, spots, screenWidth, t)[k] == ColorAt(u[i], row, col)
            && Drawn(frame, v, spots, screenWidth, t)[k] == frame[k]
  {
    hide Drawn, ColorAt, Slot, Laid, Drawable;
    PixelOfSpot(other, u, spots, screenWidth, t, i, row, col);
    PixelOfSpot(Drawn(other, u, spots, screenWidth, t), v, spots, screenWidth, t, i, row, col);
    PixelOfSpot(frame, v, spots, screenWidth, t, i, row, col);
  }

  ghost predicate OnFrame(n: int) {
    forall i :: 0 <= i < 5 ==>
      var s := TRANSPORT[i]; InFrame(n, Slot(s.y, s.x, FRAME_WIDTH), s.w, s.h, FRAME_WIDTH)
  }

  lemma OneClick(frame: Picture, up: seq<GimpImage>, down: seq<GimpImage>, clicks: seq<Button>, b: Button, t: word)
    requires Fill(up, TRANSPORT) && Fill(down, TRANSPORT)
    ensures Screen(frame, up, down, clicks + [b], t)
            == Drawn(Screen(frame, up, down, clicks, t), Versions(up, down, Pressed(Some(b))), TRANSPORT, FRAME_WIDTH,
                     t)
  {
    hide Drawn, Versions, Pressed;
    assert (clicks + [b])[..|clicks|] == clicks;
  }

  lemma VersionAt(up: seq<GimpImage>, down: seq<GimpImage>, b: Option<Button>, i: nat)
    requires Fill(up, TRANSPORT) && Fill(down, TRANSPORT) && i < 5
    ensures Versions(up, down, Pressed(b))[i] == if b == Some(ButtonOf(i)) then down[i] else up[i]
  {
    hide Drawable;
  }

  /** A frame and clicks after which more is seen than the last click draws. */
  ghost predicate MoreSeen(frame: Picture, up: seq<GimpImage>, down: seq<GimpImage>, clicks: seq<Button>, t: word)
    requires Fill(up, TRANSPORT) && Fill(down, TRANSPORT)
  {
    Screen(frame, up, down, clicks, t)
    != Drawn(frame, Versions(up, down, Pressed(LastOf(clicks))), TRANSPORT, FRAME_WIDTH, t)
  }

  /** The released image shows through a hole of the pressed one after one click. */
  lemma HoleInDown(n: int, up: seq<GimpImage>, down: seq<GimpImage>, t: word, i: nat, row: int, col: int)
    requires 0 <= n && OnFrame(n) && Fill(up, TRANSPORT) && Fill(down, TRANSPORT)
    requires i < 5 && 0 <= row < TRANSPORT[i].h && 0 <= col < TRANSPORT[i].w
    requires ColorAt(up[i], row, col) != t && ColorAt(down[i], row, col) == t
    ensures MoreSeen(seq(n, _ => ColorAt(up[i], row, col) + 1), up, down, [] + [ButtonOf(i)], t)
  {
    hide Drawn, Versions, Pressed, Laid, Drawable, ColorAt, Slot;
    var frame: Picture, b := seq(n, _ => ColorAt(up[i], row, col) + 1), ButtonOf(i);
    var u, v := Versions(up, down, Pressed(None)), Versions(up, down, Pressed(Some(b)));
    TransportLaid();
    SpotPlace(TRANSPORT[i], FRAME_WIDTH, n, row, col);
    VersionAt(up, down, None, i);
    VersionAt(up, down, Some(b), i);
    OneClick(frame, up, down, [], b, t);
    HoleShows(frame, frame, u, v, TRANSPORT, FRAME_WIDTH, t, i, row, col);
  }

  /** The pressed image shows through a hole of the released one after a click on its button and one on the next. */
  lemma HoleInUp(n: int, up: seq<GimpImage>, down: seq<GimpImage>, t: word, i: nat, row: int, col: int)
    requires 0 <= n && OnFrame(n) && Fill(up, TRANSPORT) && Fill(down, TRANSPORT)
    requires i < 5 && 0 <= row < TRANSPORT[i].h && 0 <= col < TRANSPORT[i].w
    requires ColorAt(up[i], row, col) == t && ColorAt(down[i], row, col) != t
    ensures MoreSeen(seq(n, _ => ColorAt(down[i], row, col) + 1), up, down,
                     [] + [ButtonOf(i)] + [ButtonOf((i + 1) % 5)], t)
  {
    hide Drawn, Versions, Pressed, Laid, Drawable, ColorAt, Slot, Screen;
    var frame: Picture, b, c := seq(n, _ => ColorAt(down[i], row, col) + 1), ButtonOf(i), ButtonOf((i + 1) % 5);
    var u, v := Versions(up, down, Pressed(Some(b))), Versions(up, down, Pressed(Some(c)));
    TransportLaid();
    SpotPlace(TRANSPORT[i], FRAME_WIDTH, n, row, col);
    VersionAt(up, down, Some(b), i);
    VersionAt(up, down, Some(c), i);
    OneClick(frame, up, down, [], b, t);
    OneClick(frame, up, down, [] + [b], c, t);
    HoleShows(frame, Screen(frame, up, down, [], t), u, v, TRANSPORT, FRAME_WIDTH, t, i, row, col);
  }

  /** The screen shows the images of the last click and nothing of earlier ones, on every frame and after all clicks,
      exactly when the two versions of each image are transparent at the same pixels. */
  lemma ClicksLeaveNoTrace(n: int, up: seq<GimpImage>, down: seq<GimpImage>, t: word)
    requires 0 <= n && OnFrame(n) && Fill(up, TRANSPORT) && Fill(down, TRANSPORT)
    ensures (forall frame: Picture, clicks: seq<Button> | |frame| == n :: !MoreSeen(frame, up, down, clicks, t))
            <==> AllSameHoles(up, down, t)
  {
    hide Screen, Drawn, Versions, ColorAt, Drawable, OnFrame;
    if AllSameHoles(up, down, t) {
      forall frame: Picture, clicks: seq<Button> | |frame| == n
        ensures !MoreSeen(frame, up, down, clicks, t)
      {
        LastClickShows(frame, up, down, clicks, t);
      }
    } else {
      var i :| 0 <= i < 5 && !SameHoles(up[i], down[i], t);
      var row, col :| 0 <= row < up[i].height && 0 <= col < up[i].width
                      && !(ColorAt(up[i], row, col) == t <==> ColorAt(down[i], row, col) == t);
      if ColorAt(down[i], row, col) == t {
        HoleInDown(n, up, down, t, i, row, col);
      } else {
        HoleInUp(n, up, down, t, i, row, col);
      }
    }
  }

  // ----- the screen and the panel of the machine -----

  /** The transport buttons clicked by these polls. */
  function ButtonsClicked(polls: seq<Poll>): seq<Button> {
    if polls == [] then []
    else
      ButtonsClicked(polls[..|polls| - 1])
      + match Clicked(polls[|polls| - 1])
        case Some(b) => [b]
        case None => []
  }

  lemma {:induction false} LastButton(polls: seq<Poll>)
    ensures LastOf(ButtonsClicked(polls)) == ButtonAfter(polls)
  {
    if polls != [] {
      LastButton(polls[..|polls| - 1]);
    }
  }

  /** In every reachable state between two polls the images that the machine's panel calls pressed are what the screen
      shows, if the versions of each image have the same holes. */
  lemma PanelShows(frame: Picture, up: seq<GimpImage>, down: seq<GimpImage>, t: word, events: seq<Event>, size: int)
    requires Fill(up, TRANSPORT) && Fill(down, TRANSPORT) && AllSameHoles(up, down, t)
    requires 0 < size && Run(START, events, size).pending == []
    ensures var m := Run(START, events, size);
            && |m.panel.pressed| == 5
            && Screen(frame, up, down, ButtonsClicked(m.polls), t)
               == Drawn(frame, Versions(up, down, m.panel.pressed), TRANSPORT, FRAME_WIDTH, t)
  {
    hide Screen, Drawn, Versions, AllSameHoles, Drawable, Run;
    var polls := Run(START, events, size).polls;
    SettledPanel(events, size);
    LastButton(polls);
    LastClickShows(frame, up, down, ButtonsClicked(polls), t);
  }
}
