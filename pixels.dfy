/**
 * Packed ARGB pixels. `Image.getRGB` yields a Java `int` holding alpha in bits 24-31,
 * red in 16-23, green in 8-15 and blue in 0-7; `java.awt.Color` is the unpacked record.
 */
module Pixels {
  /** A Java `int`, the type of a packed pixel. */
  type Int32 = x: int | -0x8000_0000 <= x < 0x8000_0000

  /** One unsigned 8-bit channel. */
  type Byte = x: int | 0 <= x < 0x100

  /** java.awt.Color: `new Color(r, g, b)` is opaque, that is, its alpha is 255. */
  datatype Colour = Colour(alpha: Byte, red: Byte, green: Byte, blue: Byte)

  const DEFAULT_ALPHA: Byte := 255
  const MAX_COLOUR_VALUE: Byte := 255

  /** The contents of an image: rows of packed pixels, all of one length. */
  type Picture = pic: seq<seq<Int32>> | forall r :: 0 <= r < |pic| ==> |pic[r]| == |pic[0]|

  function Height(pic: Picture): nat { |pic| }
  function Width(pic: Picture): nat { if |pic| == 0 then 0 else |pic[0]| }

  /** The pixel at row r and column c. */
  function At(pic: Picture, r: int, c: int): Int32
    requires 0 <= r < Height(pic) && 0 <= c < Width(pic)
  {
    pic[r][c]
  }

  /** `image` holds the pixels `pic`, cell for cell. */
  ghost predicate Holds(image: array2<Int32>, pic: Picture)
    reads image
  {
    Height(pic) == image.Length0 && (image.Length0 > 0 ==> Width(pic) == image.Length1) &&
    forall r, c :: 0 <= r < image.Length0 && 0 <= c < image.Length1 ==> At(pic, r, c) == image[r, c]
  }

  // `(p >> k) & 0xFF`. Java's `>>` on an int is an arithmetic shift, that is, floor
  // division by 2^k, and masking with 0xFF keeps the non-negative remainder modulo 256;
  // Dafny's `/` and `%` with a positive divisor are exactly these, also for negative p.

  function Alpha(p: int): Byte { (p / 0x100_0000) % 0x100 }
  function Red(p: int): Byte { (p / 0x1_0000) % 0x100 }
  function Green(p: int): Byte { (p / 0x100) % 0x100 }
  function Blue(p: int): Byte { p % 0x100 }

  /** Java's reading of a 32-bit pattern as a signed `int` (what `<<` into bit 31 produces). */
  function ToInt32(u: int): Int32
    requires 0 <= u < 0x1_0000_0000
  {
    if u < 0x8000_0000 then u else u - 0x1_0000_0000
  }

  /**
   * `(a << 24) | (r << 16) | (g << 8) | b`, also `Color.getRGB()`. The four fields occupy
   * disjoint bits, so the bitwise or is their sum; the shift of alpha wraps to a negative
   * `int` when alpha >= 128. Each channel of the result is the channel packed in.
   */
  function Pack(c: Colour): (p: Int32)
    ensures Alpha(p) == c.alpha && Red(p) == c.red && Green(p) == c.green && Blue(p) == c.blue
  {
    var u := c.alpha * 0x100_0000 + c.red * 0x1_0000 + c.green * 0x100 + c.blue;
    ChannelsOf(ToInt32(u), c.alpha, c.red, c.green, c.blue, if u < 0x8000_0000 then 0 else -1);
    ToInt32(u)
  }

  /** `Image.get`: the colour whose channels are those of the packed pixel. */
  function Unpack(p: int): (c: Colour)
    ensures forall d :: Pack(d) == p ==> d == c
  {
    Colour(Alpha(p), Red(p), Green(p), Blue(p))
  }

  /** Division by a positive divisor is determined by quotient and remainder. */
  lemma DivModUnique(x: int, d: int, q: int, r: int)
    requires d > 0 && x == q * d + r && 0 <= r < d
    ensures x / d == q && x % d == r
  {
    var q', r' := x / d, x % d;
    assert x == q' * d + r';
    var k := q - q';
    assert k * d == q * d - q' * d;
    assert k * d == r' - r;
    if k > 0 {
      assert false;
    } else if k < 0 {
      assert false;
    }
  }

  /** The channels of a byte layout, whatever multiple of 2^32 it is shifted by. */
  lemma ChannelsOf(p: int, a: Byte, r: Byte, g: Byte, b: Byte, k: int)
    requires p == a * 0x100_0000 + r * 0x1_0000 + g * 0x100 + b + k * 0x1_0000_0000
    ensures Alpha(p) == a && Red(p) == r && Green(p) == g && Blue(p) == b
  {
    DivModUnique(p, 0x100, a * 0x1_0000 + r * 0x100 + g + k * 0x100_0000, b);
    DivModUnique(p / 0x100, 0x100, a * 0x100 + r + k * 0x1_0000, g);
    DivModUnique(p, 0x1_0000, a * 0x100 + r + k * 0x1_0000, g * 0x100 + b);
    DivModUnique(p / 0x1_0000, 0x100, a + k * 0x100, r);
    DivModUnique(p, 0x100_0000, a + k * 0x100, r * 0x1_0000 + g * 0x100 + b);
    DivModUnique(p / 0x100_0000, 0x100, k, a);
  }

  /** Packing is lossless: unpacking recovers every channel. */
  lemma UnpackPack(c: Colour)
    ensures Unpack(Pack(c)) == c
  {
  }

  /** Every Java `int` is the packing of its own four channels. */
  lemma PackUnpack(p: Int32)
    ensures Pack(Unpack(p)) == p
  {
    var q1 := p / 0x100;
    var q2 := q1 / 0x100;
    var q3 := q2 / 0x100;
    var q4 := q3 / 0x100;
    assert p == q1 * 0x100 + Blue(p);
    DivModUnique(p, 0x1_0000, q2, (q1 % 0x100) * 0x100 + Blue(p));
    assert Green(p) == q1 % 0x100;
    DivModUnique(p, 0x100_0000, q3, (q2 % 0x100) * 0x1_0000 + (q1 % 0x100) * 0x100 + Blue(p));
    assert Red(p) == q2 % 0x100;
    assert Alpha(p) == q3 % 0x100;
    assert p == Alpha(p) * 0x100_0000 + Red(p) * 0x1_0000 + Green(p) * 0x100 + Blue(p) + q4 * 0x1_0000_0000;
    assert q4 == 0 || q4 == -1;
  }

  /** Two colours pack to the same `int` exactly when they are the same colour. */
  lemma PackInjective(c: Colour, d: Colour)
    ensures Pack(c) == Pack(d) <==> c == d
  {
    if Pack(c) == Pack(d) {
      UnpackPack(c);
      UnpackPack(d);
    }
  }
}
