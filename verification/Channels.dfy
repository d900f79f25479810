/** simple_text.c: colour channels and their alpha blending. */
module Channels {
  import opened Common
  import opened Memory
  import PixelMaps

  datatype Channels = Channels(red: byte, green: byte, blue: byte)

  function Split16(temp: half): Channels {
    Channels(((temp >> 11) & 0x1f) as byte, ((temp >> 5) & 0x3f) as byte, (temp & 0x1f) as byte)
  }

  function Merge16(red: byte, green: byte, blue: byte): half {
    ((blue as half) & 0x1f) | (((green as half) & 0x3f) << 5) | (((red as half) & 0x1f) << 11)
  }

  /** `seperate_color_channels`: the channels of a colour stored in memory, and whether the depth is a known one. */
  function SeperateColorChannels(depth: int, color: seq<byte>): (r: (Channels, int))
    requires depth == 16 ==> 2 <= |color|
    requires depth == 24 || depth == 32 ==> 3 <= |color|
  {
    if depth == 16 then
      var temp := (color[0] as half) + ((color[1] as half) << 8);
      (Split16(temp), 1)
    else if depth == 24 || depth == 32 then
      (Channels(color[2], color[1], color[0]), 1)
    else
      (Channels(0, 0, 0), 0)
  }

  /** `merge_color_channels`: the memory of a colour after the channels are stored in it. */
  function MergeColorChannels(depth: int, ch: Channels, color: seq<byte>): (r: (seq<byte>, int))
    requires 3 <= |color|
    ensures |r.0| == |color|
  {
    if depth == 16 then
      var temp := Merge16(ch.red, ch.green, ch.blue);
      (color[0 := (temp & 0xff) as byte][1 := ((temp >> 8) & 0xff) as byte], 1)
    else if depth == 24 || depth == 32 then
      (color[0 := ch.blue][1 := ch.green][2 := ch.red], 1)
    else
      (color[0 := 0][1 := 0][2 := 0], 0)
  }

  predicate KnownDepth(depth: int) { depth == 16 || depth == 24 || depth == 32 }

  /** Channels a colour of this depth can hold. */
  predicate InRange(depth: int, ch: Channels) {
    depth == 16 ==> ch.red <= 0x1f && ch.green <= 0x3f && ch.blue <= 0x1f
  }

  /** The two bytes of a 16-bit colour, put together again. */
  lemma BytesJoin(temp: half)
    ensures (((temp & 0xff) as byte) as half) + (((((temp >> 8) & 0xff) as byte) as half) << 8) == temp
  {
  }

  lemma JoinSplits(lo: byte, hi: byte)
    ensures var temp := (lo as half) + ((hi as half) << 8);
            (temp & 0xff) as byte == lo && ((temp >> 8) & 0xff) as byte == hi
  {
  }

  lemma Split16OfMerge16(r: byte, g: byte, b: byte)
    ensures Split16(Merge16(r, g, b)).red == r <==> r <= 0x1f
    ensures Split16(Merge16(r, g, b)).green == g <==> g <= 0x3f
    ensures Split16(Merge16(r, g, b)).blue == b <==> b <= 0x1f
  {
  }

  lemma Merge16OfSplit16(temp: half)
    ensures var ch := Split16(temp);
            Merge16(ch.red, ch.green, ch.blue) == temp && ch.red <= 0x1f && ch.green <= 0x3f && ch.blue <= 0x1f
  {
  }

  lemma Split16OfMerged(ch: Channels, color: seq<byte>)
    requires 3 <= |color|
    ensures SeperateColorChannels(16, MergeColorChannels(16, ch, color).0).0
            == Split16(Merge16(ch.red, ch.green, ch.blue))
  {
    BytesJoin(Merge16(ch.red, ch.green, ch.blue));
  }

  /** Splitting a merged colour gives the channels back exactly when they are in range. */
  lemma SplitOfMerge(depth: int, ch: Channels, color: seq<byte>)
    requires KnownDepth(depth) && 3 <= |color|
    ensures SeperateColorChannels(depth, MergeColorChannels(depth, ch, color).0).0 == ch <==> InRange(depth, ch)
  {
    if depth == 16 {
      Split16OfMerged(ch, color);
      Split16OfMerge16(ch.red, ch.green, ch.blue);
    }
  }

  lemma MergeOfSplit16(color: seq<byte>, other: seq<byte>)
    requires 3 <= |color| == |other|
    ensures InRange(16, SeperateColorChannels(16, color).0)
    ensures MergeColorChannels(16, SeperateColorChannels(16, color).0, other).0 == color[..2] + other[2..]
  {
    hide Split16, Merge16;
    var temp := (color[0] as half) + ((color[1] as half) << 8);
    JoinSplits(color[0], color[1]);
    Merge16OfSplit16(temp);
    assert other[0 := color[0]][1 := color[1]] == color[..2] + other[2..];
  }

  /** Merging the channels of a colour stores that colour again, in any memory. */
  lemma MergeOfSplit(depth: int, color: seq<byte>, other: seq<byte>)
    requires KnownDepth(depth) && 3 <= |color| == |other|
    ensures InRange(depth, SeperateColorChannels(depth, color).0)
    ensures var n := if depth == 16 then 2 else 3;
            MergeColorChannels(depth, SeperateColorChannels(depth, color).0, other).0 == color[..n] + other[n..]
  {
    if depth == 16 {
      MergeOfSplit16(color, other);
    }
  }

  /** The answers of the two functions tell a caller whether channels survive: for a depth at which both answer 1 every
      colour in range comes back from memory, and for every other depth both answer 0 and some colour does not. */
  lemma AnswerTellsRoundTrip(depth: int, color: seq<byte>)
    requires 3 <= |color|
    ensures forall ch :: SeperateColorChannels(depth, color).1 == MergeColorChannels(depth, ch, color).1
    ensures SeperateColorChannels(depth, color).1 == 1
            <==> forall ch :: InRange(depth, ch) ==>
                   SeperateColorChannels(depth, MergeColorChannels(depth, ch, color).0).0 == ch
    ensures SeperateColorChannels(depth, color).1 != 1 ==>
              && SeperateColorChannels(depth, color) == (Channels(0, 0, 0), 0)
              && forall ch :: MergeColorChannels(depth, ch, color) == ([0, 0, 0] + color[3..], 0)
  {
    if KnownDepth(depth) {
      forall ch | InRange(depth, ch)
        ensures SeperateColorChannels(depth, MergeColorChannels(depth, ch, color).0).0 == ch
      {
        SplitOfMerge(depth, ch, color);
      }
    } else {
      assert color[0 := 0][1 := 0][2 := 0] == [0, 0, 0] + color[3..];
      var lost := Channels(1, 1, 1);
      assert SeperateColorChannels(depth, MergeColorChannels(depth, lost, color).0).0 != lost;
    }
  }

  /** The text functions split the 16-bit pixels that both bitmap converters pack. */
  lemma PackedPixelsSplit(c: PixelMaps.Conversion, pixel: seq<byte>)
    requires c == PixelMaps.From24To16 || c == PixelMaps.From32To16
    requires |pixel| == PixelMaps.SourceBytes(c)
    ensures SeperateColorChannels(16, PixelMaps.ConvertPixel(c, pixel)).0
            == Channels(pixel[0] >> 3, pixel[1] >> 2, pixel[2] >> 3)
  {
    PackedSplit(pixel[0], pixel[1], pixel[2]);
  }

  lemma PackedSplit(r: byte, g: byte, b: byte)
    ensures SeperateColorChannels(16, Bytes16(PixelMaps.Pack565(r, g, b))).0 == Channels(r >> 3, g >> 2, b >> 3)
  {
  }

  // ----- blending -----

  /** Text `f` over background `b`, `a` parts in 255. */
  function Blend(f: int, b: int, a: int): int {
    (f * a + b * (255 - a)) / 255
  }

  /** The blend is the mean weighted by alpha, rounded down. */
  lemma BlendIsMean(f: int, b: int, a: int)
    ensures 255 * Blend(f, b, a) <= f * a + b * (255 - a) < 255 * Blend(f, b, a) + 255
  {
  }

  lemma Rescaled(x: int, lo: int, hi: int)
    requires lo * 255 <= x <= hi * 255
    ensures lo <= x / 255 <= hi
  {
  }

  /** A blend lies between its two ends. */
  lemma BlendBetween(f: int, b: int, a: int)
    requires 0 <= a <= 255
    ensures f <= b ==> f <= Blend(f, b, a) <= b
    ensures b <= f ==> b <= Blend(f, b, a) <= f
  {
    var lo, hi := if f < b then f else b, if f < b then b else f;
    ProductsInOrder(lo, f, a);
    ProductsInOrder(f, hi, a);
    ProductsInOrder(lo, b, 255 - a);
    ProductsInOrder(b, hi, 255 - a);
    assert lo * a + lo * (255 - a) == lo * 255 && hi * a + hi * (255 - a) == hi * 255;
    Rescaled(f * a + b * (255 - a), lo, hi);
  }

  /** Alpha 0 is the background, 255 the text, and equal colours blend to themselves. */
  lemma BlendEnds(f: int, b: int, a: int)
    requires 0 <= a <= 255
    ensures Blend(f, b, 0) == b && Blend(f, b, 255) == f && Blend(f, f, a) == f
  {
    BlendBetween(f, f, a);
  }

  /** More alpha moves the blend toward the text. */
  lemma BlendMoves(f: int, b: int, a: int, c: int)
    requires 0 <= a <= c <= 255
    ensures b <= f ==> Blend(f, b, a) <= Blend(f, b, c)
    ensures f <= b ==> Blend(f, b, c) <= Blend(f, b, a)
  {
    assert (f * c + b * (255 - c)) - (f * a + b * (255 - a)) == (f - b) * (c - a);
    if b <= f {
      assert 0 <= (f - b) * (c - a);
    }
    if f <= b {
      assert 0 <= (b - f) * (c - a);
    }
  }

  /** Exchanging the colours and complementing alpha is no change. */
  lemma BlendMirrors(f: int, b: int, a: int)
    ensures Blend(f, b, a) == Blend(b, f, 255 - a)
  {
  }

  function Clip(blended: int, max: int): int {
    if blended > max then max else blended
  }

  /** `alpha_blending` after the background channels are known: blend, clip to the depth, and whether it is known. */
  function AlphaBlending(depth: int, ch: Channels, background: Channels, alpha: byte): (r: (Channels, int)) {
    var red := BlendValue(ch.red, background.red, alpha);
    var green := BlendValue(ch.green, background.green, alpha);
    var blue := BlendValue(ch.blue, background.blue, alpha);
    if depth == 16 then
      (Channels(ToByte(Clip(red, 0x1f)), ToByte(Clip(green, 0x3f)), ToByte(Clip(blue, 0x1f))), 1)
    else if depth == 24 || depth == 32 then
      (Channels(ToByte(Clip(red, 0xff)), ToByte(Clip(green, 0xff)), ToByte(Clip(blue, 0xff))), 1)
    else
      (ch, 0)
  }

  function BlendValue(f: byte, b: byte, alpha: byte): (n: int)
    ensures 0 <= n <= 255
  {
    BlendBetween(Value(f), Value(b), Value(alpha));
    Blend(Value(f), Value(b), Value(alpha))
  }

  /** One channel of a text pixel. */
  function BlendByte(f: byte, b: byte, alpha: byte): (r: byte)
    ensures Value(r) == Blend(Value(f), Value(b), Value(alpha))
  {
    ToByte(BlendValue(f, b, alpha))
  }

  /** Channel `r` is the mean of text `f` and background `b`, weighted by alpha and rounded down. */
  predicate IsMean(r: byte, f: byte, b: byte, alpha: byte) {
    var sum := Value(f) * Value(alpha) + Value(b) * (255 - Value(alpha));
    255 * Value(r) <= sum < 255 * Value(r) + 255
  }

  lemma BlendByteIsMean(f: byte, b: byte, alpha: byte)
    ensures IsMean(BlendByte(f, b, alpha), f, b, alpha)
  {
    hide Blend;
    BlendIsMean(Value(f), Value(b), Value(alpha));
  }

  function BlendChannels(f: Channels, b: Channels, alpha: byte): Channels {
    Channels(BlendByte(f.red, b.red, alpha), BlendByte(f.green, b.green, alpha), BlendByte(f.blue, b.blue, alpha))
  }

  /** A blend of two channels that are at most `max`, the byte of the number `top`. */
  lemma ClipOfBlend(f: byte, b: byte, alpha: byte, max: byte, top: int)
    requires f <= max && b <= max && top == Value(max)
    ensures BlendByte(f, b, alpha) <= max
    ensures ToByte(Clip(BlendValue(f, b, alpha), top)) == BlendByte(f, b, alpha)
  {
    BlendBetween(Value(f), Value(b), Value(alpha));
    ValueOrder(f, max);
    ValueOrder(b, max);
    ValueOrder(BlendByte(f, b, alpha), max);
  }

  lemma Tops()
    ensures Value(0x1f) == 0x1f && Value(0x3f) == 0x3f && Value(0xff) == 0xff
  {
  }

  lemma ClipIsIdle16(f: Channels, b: Channels, alpha: byte)
    requires InRange(16, f) && InRange(16, b)
    ensures AlphaBlending(16, f, b, alpha) == (BlendChannels(f, b, alpha), 1)
    ensures InRange(16, BlendChannels(f, b, alpha))
  {
    hide BlendValue, BlendByte, Blend, Clip, Value, ToByte;
    Tops();
    ClipOfBlend(f.red, b.red, alpha, 0x1f, 0x1f);
    ClipOfBlend(f.green, b.green, alpha, 0x3f, 0x3f);
    ClipOfBlend(f.blue, b.blue, alpha, 0x1f, 0x1f);
  }

  lemma ClipIsIdle24(depth: int, f: Channels, b: Channels, alpha: byte)
    requires depth == 24 || depth == 32
    ensures AlphaBlending(depth, f, b, alpha) == (BlendChannels(f, b, alpha), 1)
  {
    hide BlendValue, BlendByte, Blend, Clip, Value, ToByte;
    Tops();
    ClipOfBlend(f.red, b.red, alpha, 0xff, 0xff);
    ClipOfBlend(f.green, b.green, alpha, 0xff, 0xff);
    ClipOfBlend(f.blue, b.blue, alpha, 0xff, 0xff);
  }

  /** On channels in range the clip never fires: every depth gets the plain blend, in range again. */
  lemma ClipIsIdle(depth: int, f: Channels, b: Channels, alpha: byte)
    requires KnownDepth(depth) && InRange(depth, f) && InRange(depth, b)
    ensures AlphaBlending(depth, f, b, alpha) == (BlendChannels(f, b, alpha), 1)
    ensures InRange(depth, BlendChannels(f, b, alpha))
  {
    hide AlphaBlending, BlendChannels;
    if depth == 16 {
      ClipIsIdle16(f, b, alpha);
    } else {
      ClipIsIdle24(depth, f, b, alpha);
    }
  }

  /** At 16 bits a channel whose blend is more than the format holds, which takes channels out of range, is cut to the
      largest value, and no other is; at an unknown depth the channels stay. */
  lemma ClipCuts(f: Channels, b: Channels, alpha: byte)
    ensures var cut, whole := AlphaBlending(16, f, b, alpha).0, BlendChannels(f, b, alpha);
            && Value(cut.red) == Min(Value(whole.red), 31)
            && Value(cut.green) == Min(Value(whole.green), 63)
            && Value(cut.blue) == Min(Value(whole.blue), 31)
    ensures forall depth :: !KnownDepth(depth) ==> AlphaBlending(depth, f, b, alpha) == (f, 0)
  {
    hide BlendValue, Blend, Value;
  }

  /** In bytes: alpha 0 is the background, and 255 the text. */
  lemma BlendByteEnds(f: byte, b: byte)
    ensures BlendByte(f, b, 0) == b && BlendByte(f, b, 0xff) == f
  {
    BlendByteZero(f, b);
    BlendEnds(Value(f), Value(b), 255);
    SameValue(BlendByte(f, b, 0xff), f);
  }

  lemma BlendByteZero(f: byte, b: byte)
    ensures BlendByte(f, b, 0) == b
  {
    BlendEnds(Value(f), Value(b), 0);
    SameValue(BlendByte(f, b, 0), b);
  }

  /** Equal colours blend to themselves. */
  lemma BlendByteSame(f: byte, alpha: byte)
    ensures BlendByte(f, f, alpha) == f
  {
    BlendEnds(Value(f), Value(f), Value(alpha));
    SameValue(BlendByte(f, f, alpha), f);
  }
}
