/** vip_fr.c: two frame buffers, one on display and one to draw on. */
module FrameReader {
  import opened Memory
  import opened Overlays
  import opened Raster

  /** The frame memories (one when both bases are the same address), the software's frame index, and register 3. */
  datatype Display = Display(frames: seq<Picture>, displayFrame: int, selected: int)

  ghost predicate WellFormed(d: Display) {
    && 1 <= |d.frames| <= 2
    && |d.frames[0]| == |d.frames[|d.frames| - 1]|
    && d.selected == d.displayFrame
    && 0 <= d.displayFrame <= 1
  }

  function MemoryOf(d: Display, frame: int): (i: int)
    requires 1 <= |d.frames| <= 2 && 0 <= frame <= 1
    ensures 0 <= i < |d.frames|
  {
    if |d.frames| == 1 then 0 else frame
  }

  /** What the hardware scans out: the frame its register selects. */
  function Shown(d: Display): Picture
    requires WellFormed(d)
  {
    d.frames[MemoryOf(d, d.selected)]
  }

  /** The frame `VIPFR_GetDrawFrame` returns. */
  function Hidden(d: Display): Picture
    requires WellFormed(d)
  {
    d.frames[MemoryOf(d, 1 - d.displayFrame)]
  }

  /** Calls a program makes on the display: `DrawShown` is a drawing of the `DispIMAGE` family, which writes the frame
      that `DisplayFrame` names; every other drawing goes through `VIPFR_GetDrawFrame`. */
  datatype Op = Reserve | Activate | Draw(layer: Layer) | DrawShown(layer: Layer)

  function Step(d: Display, op: Op): (after: Display)
    requires WellFormed(d)
    ensures WellFormed(after) && |after.frames| == |d.frames|
  {
    var draw, show := MemoryOf(d, 1 - d.displayFrame), MemoryOf(d, d.displayFrame);
    match op
    case Reserve => d.(frames := d.frames[draw := d.frames[show]])
    case Activate => d.(displayFrame := (d.displayFrame + 1) % 2, selected := (d.displayFrame + 1) % 2)
    case Draw(layer) => d.(frames := d.frames[draw := Overlay(d.frames[draw], layer)])
    case DrawShown(layer) => d.(frames := d.frames[show := Overlay(d.frames[show], layer)])
  }

  function Run(d: Display, ops: seq<Op>): (after: Display)
    requires WellFormed(d)
    ensures WellFormed(after) && |after.frames| == |d.frames|
  {
    if ops == [] then d else Step(Run(d, ops[..|ops| - 1]), ops[|ops| - 1])
  }

  lemma {:induction false} RunConcat(d: Display, a: seq<Op>, b: seq<Op>)
    requires WellFormed(d)
    ensures Run(d, a + b) == Run(Run(d, a), b)
  {
    if b == [] {
      assert a + b == a;
    } else {
      RunConcat(d, a, b[..|b| - 1]);
      assert (a + b)[..|a + b| - 1] == a + b[..|b| - 1];
    }
  }

  lemma RunThen(d: Display, ops: seq<Op>, op: Op)
    requires WellFormed(d)
    ensures Run(d, ops + [op]) == Step(Run(d, ops), op)
  {
    assert (ops + [op])[..|ops|] == ops;
  }

  function Activations(ops: seq<Op>): nat {
    if ops == [] then 0 else Activations(ops[..|ops| - 1]) + if ops[|ops| - 1].Activate? then 1 else 0
  }

  /** In every run the register and the software's index agree, and tell how often the frames were swapped. */
  lemma {:induction false} RegisterFollows(d: Display, ops: seq<Op>)
    requires WellFormed(d)
    ensures Run(d, ops).selected == Run(d, ops).displayFrame == (d.displayFrame + Activations(ops)) % 2
  {
    if ops != [] {
      RegisterFollows(d, ops[..|ops| - 1]);
    }
  }

  // ----- two separate frames -----

  /** What a user of two frames sees: a picture on display, and one in preparation. */
  datatype Pair = Pair(shown: Picture, hidden: Picture)

  function PairStep(p: Pair, op: Op): Pair {
    match op
    case Reserve => Pair(p.shown, p.shown)
    case Activate => Pair(p.hidden, p.shown)
    case Draw(layer) => Pair(p.shown, Overlay(p.hidden, layer))
    case DrawShown(layer) => Pair(Overlay(p.shown, layer), p.hidden)
  }

  function PairRun(p: Pair, ops: seq<Op>): Pair {
    if ops == [] then p else PairStep(PairRun(p, ops[..|ops| - 1]), ops[|ops| - 1])
  }

  /** The indexed frames, index and register refine the pair of pictures over every run. */
  lemma {:induction false} FramesRefinePair(d: Display, ops: seq<Op>)
    requires WellFormed(d) && |d.frames| == 2
    ensures Pair(Shown(Run(d, ops)), Hidden(Run(d, ops))) == PairRun(Pair(Shown(d), Hidden(d)), ops)
  {
    if ops != [] {
      FramesRefinePair(d, ops[..|ops| - 1]);
    }
  }

  /** The layers drawn straight on the displayed frame. */
  function ShownLayers(ops: seq<Op>): seq<Layer> {
    if ops == [] then []
    else ShownLayers(ops[..|ops| - 1]) + if ops[|ops| - 1].DrawShown? then [ops[|ops| - 1].layer] else []
  }

  /** Between two swaps nothing reaches the screen but what is drawn on the displayed frame itself. */
  lemma {:induction false} ScreenIsSafe(d: Display, ops: seq<Op>)
    requires WellFormed(d) && |d.frames| == 2
    requires forall op :: op in ops ==> !op.Activate?
    ensures Shown(Run(d, ops)) == OverlayAll(Shown(d), ShownLayers(ops))
  {
    if ops != [] {
      ScreenIsSafe(d, ops[..|ops| - 1]);
      var front, last := ShownLayers(ops[..|ops| - 1]), ops[|ops| - 1];
      if last.DrawShown? {
        assert (front + [last.layer])[..|front|] == front;
      } else {
        assert front + [] == front;
      }
    }
  }

  lemma SwapThenDraw(d: Display, later: seq<Op>)
    requires WellFormed(d) && |d.frames| == 2
    requires forall op :: op in later ==> !op.Activate?
    ensures Shown(Run(Step(d, Activate), later)) == OverlayAll(Hidden(d), ShownLayers(later))
  {
    ScreenIsSafe(Step(d, Activate), later);
    assert Shown(Step(d, Activate)) == Hidden(d);
  }

  /** After a swap the screen shows what the draw frame held, plus later drawing on the displayed frame. */
  lemma SwapShowsDrawFrame(d: Display, earlier: seq<Op>, later: seq<Op>)
    requires WellFormed(d) && |d.frames| == 2
    requires forall op :: op in later ==> !op.Activate?
    ensures Shown(Run(d, earlier + [Activate] + later)) == OverlayAll(Hidden(Run(d, earlier)), ShownLayers(later))
  {
    SwapThenDraw(Run(d, earlier), later);
    assert Run(d, earlier + [Activate] + later) == Run(Step(Run(d, earlier), Activate), later) by {
      RunConcat(d, earlier + [Activate], later);
      RunThen(d, earlier, Activate);
    }
  }

  function Draws(layers: seq<Layer>): (ops: seq<Op>)
    ensures |ops| == |layers| && forall i :: 0 <= i < |ops| ==> ops[i] == Draw(layers[i])
  {
    seq(|layers|, i requires 0 <= i < |layers| => Draw(layers[i]))
  }

  lemma {:induction false} DrawsOnHidden(d: Display, layers: seq<Layer>)
    requires WellFormed(d)
    ensures Hidden(Run(d, Draws(layers))) == OverlayAll(Hidden(d), layers)
    ensures Run(d, Draws(layers)).displayFrame == d.displayFrame
  {
    if layers != [] {
      var front := layers[..|layers| - 1];
      assert Draws(layers)[..|layers| - 1] == Draws(front);
      DrawsOnHidden(d, front);
    }
  }

  lemma ReserveThenDraw(d: Display, layers: seq<Layer>)
    requires WellFormed(d)
    ensures Run(d, [Reserve] + Draws(layers)) == Run(Step(d, Reserve), Draws(layers))
  {
    RunConcat(d, [Reserve], Draws(layers));
    RunThen(d, [], Reserve);
    assert [] + [Reserve] == [Reserve];
  }

  /** Reserve, draw, activate: the screen goes from the old picture to the old picture with the drawings on it,
      whether or not the two frames share their memory. */
  lemma FlipShowsDrawings(d: Display, layers: seq<Layer>)
    requires WellFormed(d)
    ensures Shown(Run(d, [Reserve] + Draws(layers) + [Activate])) == OverlayAll(Shown(d), layers)
  {
    hide Run, OverlayAll, Draws;
    ReserveThenDraw(d, layers);
    RunThen(d, [Reserve] + Draws(layers), Activate);
    DrawsOnHidden(Step(d, Reserve), layers);
  }

  /** With two frames the preparation is invisible: the picture changes in the swap alone. */
  lemma PreparationIsInvisible(d: Display, layers: seq<Layer>)
    requires WellFormed(d) && |d.frames| == 2
    ensures Shown(Run(d, [Reserve] + Draws(layers))) == Shown(d)
  {
    var ops := [Reserve] + Draws(layers);
    assert forall i :: 0 <= i < |ops| ==> ops[i].Reserve? || ops[i].Draw?;
    ScreenIsSafe(d, ops);
    NothingOnShown(ops);
  }

  lemma {:induction false} NothingOnShown(ops: seq<Op>)
    requires forall op :: op in ops ==> !op.DrawShown?
    ensures ShownLayers(ops) == []
  {
    if ops != [] {
      NothingOnShown(ops[..|ops| - 1]);
    }
  }

  // ----- one shared frame, as main sets the display up -----

  function DrawnLayers(ops: seq<Op>): seq<Layer> {
    if ops == [] then []
    else DrawnLayers(ops[..|ops| - 1])
         + if ops[|ops| - 1].Draw? || ops[|ops| - 1].DrawShown? then [ops[|ops| - 1].layer] else []
  }

  /** With one base for both frames every drawing is on screen at once; reserving and swapping change nothing. */
  lemma {:induction false} SharedFrameShowsAll(d: Display, ops: seq<Op>)
    requires WellFormed(d) && |d.frames| == 1
    ensures Shown(Run(d, ops)) == OverlayAll(Shown(d), DrawnLayers(ops))
  {
    if ops != [] {
      SharedFrameShowsAll(d, ops[..|ops| - 1]);
      var front, last := DrawnLayers(ops[..|ops| - 1]), ops[|ops| - 1];
      if last.Draw? || last.DrawShown? {
        assert (front + [last.layer])[..|front|] == front;
      } else {
        assert front + [] == front;
      }
    }
  }

  // ----- the frame reader -----

  /** The word that `memset` with `color` makes, of four bytes that are the low byte of `color`. */
  function MemsetWord(color: word): word {
    Word(BlueOf(color), BlueOf(color), BlueOf(color), BlueOf(color))
  }

  function Places(n: int): (places: set<int>)
    ensures forall k :: k in places <==> 0 <= k < n
    decreases n
  {
    if n <= 0 then {} else Places(n - 1) + {n - 1}
  }

  /** One colour in each of the first `n` places. */
  function Filled(n: int, color: word): Layer {
    map k | k in Places(n) :: color
  }

  /** `VIP_FRAME_READER` with the control and frame-select registers of its device. */
  class VipFrameReader {
    var frame0Base: array<word>
    var frame1Base: array<word>
    var displayFrame: int
    var colorDepth: int
    var width: int
    var height: int
    var bytesPerPixel: int
    var interlace: int
    var goRegister: bool
    var selectRegister: int

    ghost predicate Valid()
      reads this, frame0Base, frame1Base
    {
      && 0 <= width && 0 <= height
      && frame0Base.Length == frame1Base.Length == width * height
      && selectRegister == displayFrame
      && 0 <= displayFrame <= 1
    }

    ghost function State(): (d: Display)
      requires Valid()
      reads this, frame0Base, frame1Base
      ensures WellFormed(d)
    {
      Display(if frame0Base == frame1Base then [frame0Base[..]] else [frame0Base[..], frame1Base[..]],
              displayFrame, selectRegister)
    }

    /** `VIPFR_Init`. */
    constructor Init(frame0: array<word>, frame1: array<word>, frameWidth: nat, frameHeight: nat)
      requires frame0.Length == frame1.Length == frameWidth * frameHeight
      ensures Valid()
      ensures frame0Base == frame0 && frame1Base == frame1 && width == frameWidth && height == frameHeight
      ensures State() == Display(if frame0 == frame1 then [frame0[..]] else [frame0[..], frame1[..]], 0, 0)
      ensures displayFrame == 0 && colorDepth == 32 && bytesPerPixel == 4 && interlace == 0 && goRegister
    {
      frame0Base, frame1Base, displayFrame := frame0, frame1, 0;
      bytesPerPixel, colorDepth, interlace := 4, 32, 0;
      goRegister := false;
      width, height := frameWidth, frameHeight;
      selectRegister := 0;
      new;
      goRegister := true;
    }

    /** `VIPFR_GetDrawFrame`. */
    function GetDrawFrame(): (frame: array<word>)
      reads this
    {
      if displayFrame == 0 then frame1Base else frame0Base
    }

    /** The frame the `DispIMAGE` functions write. */
    function GetDisplayFrame(): (frame: array<word>)
      reads this
    {
      if displayFrame == 0 then frame0Base else frame1Base
    }

    /** `VIPFR_ActiveDrawFrame`. */
    method ActiveDrawFrame()
      requires Valid()
      modifies this`displayFrame, this`selectRegister
      ensures Valid() && State() == Step(old(State()), Activate)
      ensures displayFrame == selectRegister == 1 - old(displayFrame)
    {
      displayFrame := (displayFrame + 1) % 2;
      selectRegister := displayFrame;
    }

    /** `vid_set_pixel` at colour depth 32. */
    method SetPixel(horiz: int, vert: int, color: word)
      requires Valid()
      requires 0 <= Slot(vert, horiz, width) < GetDrawFrame().Length
      modifies GetDrawFrame()
      ensures Valid() && State() == Step(old(State()), Draw(map[Slot(vert, horiz, width) := color]))
      ensures GetDrawFrame()[..] == old(GetDrawFrame()[..])[Slot(vert, horiz, width) := color]
      ensures displayFrame == 0 && frame0Base != frame1Base ==> frame0Base[..] == old(frame0Base[..])
      ensures displayFrame == 1 && frame0Base != frame1Base ==> frame1Base[..] == old(frame1Base[..])
    {
      var frame := GetDrawFrame();
      frame[vert * width + horiz] := color;
      assert frame[..] == Overlay(old(frame[..]), map[Slot(vert, horiz, width) := color]);
    }

    /** `VIPFR_ReserveBackground`; `memcpy` copies the words of the displayed frame. */
    method ReserveBackground()
      requires Valid()
      modifies GetDrawFrame()
      ensures Valid() && State() == Step(old(State()), Reserve)
      ensures GetDrawFrame()[..] == old(GetDisplayFrame()[..])
    {
      var src, des;
      if displayFrame == 0 {
        src, des := frame0Base, frame1Base;
      } else {
        des, src := frame0Base, frame1Base;
      }
      var size := width * height;
      forall k | 0 <= k < size {
        des[k] := src[k];
      }
      assert des[..] == old(src[..]);
      assert src[..] == old(src[..]);
    }

    /** `DRAW_EraseScreen`. */
    method EraseScreen(color: word)
      requires Valid()
      modifies GetDrawFrame()
      ensures Valid()
      ensures State() == Step(old(State()), Draw(Filled(width * height, MemsetWord(color))))
      ensures var low := (color & 0xff) as byte;
              forall k :: 0 <= k < GetDrawFrame().Length ==> Bytes32(GetDrawFrame()[k]) == [low, low, low, low]
    {
      var frame, size := GetDrawFrame(), width * height;
      forall k | 0 <= k < size {
        frame[k] := MemsetWord(color);
      }
      BytesOfWord(BlueOf(color), BlueOf(color), BlueOf(color), BlueOf(color));
      assert frame[..] == Overlay(old(frame[..]), Filled(size, MemsetWord(color)));
      assert GetDisplayFrame() != frame ==> GetDisplayFrame()[..] == old(GetDisplayFrame()[..]);
    }
  }

  lemma MemsetShows(color: word)
    ensures Low24(MemsetWord(color)) == Low24(color) <==> RedOf(color) == GreenOf(color) == BlueOf(color)
  {
    ColorOfWord(BlueOf(color), BlueOf(color), BlueOf(color), BlueOf(color));
    ColorOfChannels(color);
    RgbChannels(BlueOf(color), BlueOf(color), BlueOf(color));
    RgbChannels(RedOf(color), GreenOf(color), BlueOf(color));
  }

  /** The draw frame after an erase. */
  function Erased(d: Display, color: word): Picture
    requires WellFormed(d)
  {
    Hidden(Step(d, Draw(Filled(|Hidden(d)|, MemsetWord(color)))))
  }

  /** `memset` fills with the low byte alone: the erased frame shows the colour asked for exactly when it is a grey. */
  lemma ErasedToColor(d: Display, color: word)
    requires WellFormed(d) && Hidden(d) != []
    ensures (forall k :: 0 <= k < |Erased(d, color)| ==> Low24(Erased(d, color)[k]) == Low24(color))
            <==> RedOf(color) == GreenOf(color) == BlueOf(color)
  {
    var n := |Hidden(d)|;
    assert forall k :: 0 <= k < n ==> Erased(d, color)[k] == MemsetWord(color);
    MemsetShows(color);
    if forall k :: 0 <= k < |Erased(d, color)| ==> Low24(Erased(d, color)[k]) == Low24(color) {
      assert Low24(Erased(d, color)[0]) == Low24(color);
    }
  }

  /** A screen erased to blue turns white. */
  lemma BlueErasesToWhite(d: Display, k: int)
    requires WellFormed(d) && 0 <= k < |Hidden(d)|
    ensures Low24(Erased(d, 0x0000ff)[k]) == 0xffffff
  {
    assert k in Places(|Hidden(d)|);
  }
}
