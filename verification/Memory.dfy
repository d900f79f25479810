/** Bytes, half words and words of the little-endian CPU, and the loads and stores made through cast pointers. */
module Memory {

  type byte = bv8
  type half = bv16
  type word = bv32

  /** The number in a byte. */
  function Value(b: byte): (n: int)
    ensures 0 <= n <= 255
  {
    b as int
  }

  lemma ValueOfNext(b: byte)
    requires b < 0xff
    ensures Value(b + 1) == Value(b) + 1
  {
  }

  lemma {:induction false} SomeByteHolds(n: int)
    requires 0 <= n <= 255
    ensures exists b: byte :: Value(b) == n
    decreases n
  {
    if n == 0 {
      assert Value(0) == 0;
    } else {
      SomeByteHolds(n - 1);
      var b: byte :| Value(b) == n - 1;
      assert Value(0xff) == 255;
      ValueOfNext(b);
    }
  }

  lemma ValueOfCast(n: int)
    requires 0 <= n <= 255
    ensures Value(n as byte) == n
  {
    SomeByteHolds(n);
    var b: byte :| Value(b) == n;
    assert Value(b) as byte == b;
  }

  /** The byte that holds a number. */
  function ToByte(n: int): (b: byte)
    requires 0 <= n <= 255
    ensures Value(b) == n
  {
    ValueOfCast(n);
    n as byte
  }

  /** A byte is known by its number. */
  lemma SameValue(a: byte, b: byte)
    requires Value(a) == Value(b)
    ensures a == b
  {
    assert (Value(a) as byte) == a && (Value(b) as byte) == b;
  }

  lemma ValueOrder(a: byte, b: byte)
    ensures a <= b <==> Value(a) <= Value(b)
  {
  }

  /** `*(unsigned long *)p`, where the four bytes at `p` are given. */
  function Word(b0: byte, b1: byte, b2: byte, b3: byte): word {
    (b0 as word) | ((b1 as word) << 8) | ((b2 as word) << 16) | ((b3 as word) << 24)
  }

  function Load32(memory: seq<byte>, at: int): word
    requires 0 <= at <= |memory| - 4
  {
    Word(memory[at], memory[at + 1], memory[at + 2], memory[at + 3])
  }

  function Bytes32(v: word): (s: seq<byte>)
    ensures |s| == 4
  {
    [(v & 0xff) as byte, ((v >> 8) & 0xff) as byte, ((v >> 16) & 0xff) as byte, ((v >> 24) & 0xff) as byte]
  }

  function Bytes16(v: half): (s: seq<byte>)
    ensures |s| == 2
  {
    [(v & 0xff) as byte, (v >> 8) as byte]
  }

  /** What a store of `bytes` at address `at` makes of the memory. */
  function Stored(memory: seq<byte>, at: int, bytes: seq<byte>): (after: seq<byte>)
    requires 0 <= at <= |memory| - |bytes|
    ensures |after| == |memory|
  {
    seq(|memory|, k requires 0 <= k < |memory| => if at <= k < at + |bytes| then bytes[k - at] else memory[k])
  }

  /** `*(unsigned long *)p = v`. */
  method Store32(memory: array<byte>, at: int, v: word)
    requires 0 <= at <= memory.Length - 4
    modifies memory
    ensures memory[..] == Stored(old(memory[..]), at, Bytes32(v))
  {
    memory[at], memory[at + 1], memory[at + 2], memory[at + 3] :=
      Bytes32(v)[0], Bytes32(v)[1], Bytes32(v)[2], Bytes32(v)[3];
  }

  /** `*(unsigned short *)p = v`. */
  method Store16(memory: array<byte>, at: int, v: half)
    requires 0 <= at <= memory.Length - 2
    modifies memory
    ensures memory[..] == Stored(old(memory[..]), at, Bytes16(v))
  {
    memory[at], memory[at + 1] := Bytes16(v)[0], Bytes16(v)[1];
  }

  /** A colour `R(8):G(8):B(8)` in the low 24 bits of a word. */
  function Rgb(r: byte, g: byte, b: byte): word {
    ((r as word) << 16) | ((g as word) << 8) | (b as word)
  }

  function RedOf(w: word): byte { ((w >> 16) & 0xff) as byte }

  function GreenOf(w: word): byte { ((w >> 8) & 0xff) as byte }

  function BlueOf(w: word): byte { (w & 0xff) as byte }

  /** The part of a frame word the screen shows. */
  function Low24(w: word): word { w & 0xffffff }

  function Visible(frame: seq<word>): (v: seq<word>)
    ensures |v| == |frame|
  {
    seq(|frame|, k requires 0 <= k < |frame| => Low24(frame[k]))
  }

  /** A colour is known by its channels. */
  lemma RgbChannels(r: byte, g: byte, b: byte)
    ensures RedOf(Rgb(r, g, b)) == r && GreenOf(Rgb(r, g, b)) == g && BlueOf(Rgb(r, g, b)) == b
    ensures Low24(Rgb(r, g, b)) == Rgb(r, g, b)
  {
  }

  /** Storing a loaded word stores its four bytes. */
  lemma BytesOfWord(b0: byte, b1: byte, b2: byte, b3: byte)
    ensures Bytes32(Word(b0, b1, b2, b3)) == [b0, b1, b2, b3]
  {
    var w := Word(b0, b1, b2, b3);
    ByteOfWord0(b0, b1, b2, b3);
    ByteOfWord1(b0, b1, b2, b3);
    ByteOfWord2(b0, b1, b2, b3);
    ByteOfWord3(b0, b1, b2, b3);
  }

  lemma ByteOfWord0(b0: byte, b1: byte, b2: byte, b3: byte)
    ensures (Word(b0, b1, b2, b3) & 0xff) as byte == b0
  {
  }

  lemma ByteOfWord1(b0: byte, b1: byte, b2: byte, b3: byte)
    ensures ((Word(b0, b1, b2, b3) >> 8) & 0xff) as byte == b1
  {
  }

  lemma ByteOfWord2(b0: byte, b1: byte, b2: byte, b3: byte)
    ensures ((Word(b0, b1, b2, b3) >> 16) & 0xff) as byte == b2
  {
  }

  lemma ByteOfWord3(b0: byte, b1: byte, b2: byte, b3: byte)
    ensures ((Word(b0, b1, b2, b3) >> 24) & 0xff) as byte == b3
  {
  }

  /** Three bytes of a little-endian word are a colour. */
  lemma ColorOfWord(b: byte, g: byte, r: byte, top: byte)
    ensures Low24(Word(b, g, r, top)) == Rgb(r, g, b)
  {
    var w := Rgb(r, g, b);
    assert w & 0xffffff == w;
    assert ((top as word) << 24) & 0xffffff == 0;
    assert Word(b, g, r, top) == w | ((top as word) << 24);
    MaskOfOr(w, (top as word) << 24);
  }

  lemma MaskOfOr(x: word, y: word)
    ensures (x | y) & 0xffffff == (x & 0xffffff) | (y & 0xffffff)
  {
  }

  /** What shows of a word is the colour of its channels. */
  lemma ColorOfChannels(color: word)
    ensures Rgb(RedOf(color), GreenOf(color), BlueOf(color)) == Low24(color)
  {
  }
}
