/**
 * Packing and unpacking of 0xRRGGBB colours, the three bytes the strip
 * stores per pixel, and the per-channel brightness scaling that the
 * controller applies before it writes pixels.
 */
module Channels {
  import opened RingDefs

  /** What the strip stores for one pixel: its red, green and blue bytes. */
  datatype Rgb = Rgb(r: uint8, g: uint8, b: uint8)

  /** A dark pixel. */
  const Off: Rgb := Rgb(0, 0, 0)

  /** (c >> 16) & 0xFF */
  function Red(c: rgb24): uint8 { c / 0x1_0000 }

  /** (c >> 8) & 0xFF */
  function Green(c: rgb24): uint8 { c / 0x100 % 0x100 }

  /** c & 0xFF */
  function Blue(c: rgb24): uint8 { c % 0x100 }

  /** (r << 16) | (g << 8) | b: the channels come back out unchanged. */
  function Pack(r: uint8, g: uint8, b: uint8): (c: rgb24)
    ensures Red(c) == r && Green(c) == g && Blue(c) == b
    ensures c == 0 <==> r == 0 && g == 0 && b == 0
  {
    var low := g * 0x100 + b;
    assert low / 0x100 == g && low % 0x100 == b;
    var c := r * 0x1_0000 + low;
    assert c / 0x1_0000 == r;
    assert c / 0x100 == r * 0x100 + g;
    c
  }

  /** The bytes the strip stores when a packed colour is written to a pixel; only BLACK is dark. */
  function Unpack(c: rgb24): (p: Rgb)
    ensures p == Off <==> c == BLACK
  {
    Rgb(Red(c), Green(c), Blue(c))
  }

  /** Unpacking and packing again gives back the colour. */
  lemma PackUnpack(c: rgb24)
    ensures Pack(Unpack(c).r, Unpack(c).g, Unpack(c).b) == c
  {
  }

  /** Packing and then unpacking gives back the channels. */
  lemma UnpackPack(r: uint8, g: uint8, b: uint8)
    ensures Unpack(Pack(r, g, b)) == Rgb(r, g, b)
  {
  }

  /** ch * brightness / 255: never brighter, unchanged at 255, dark at 0. */
  function ScaleChannel(ch: uint8, brightness: uint8): (r: uint8)
    ensures r <= ch
    ensures brightness == 255 ==> r == ch
    ensures brightness == 0 ==> r == 0
  {
    MulBound(ch, brightness, 255);
    ch * brightness / 255
  }

  lemma MulBound(x: nat, y: nat, z: nat)
    requires y <= z
    ensures x * y <= x * z
  {
  }

  /** The pixel `p` shown at `brightness`: each channel scaled by brightness/255. */
  function Scaled(p: Rgb, brightness: uint8): (q: Rgb)
    ensures q.r <= p.r && q.g <= p.g && q.b <= p.b
    ensures brightness == 255 ==> q == p
    ensures brightness == 0 ==> q == Off
    ensures p == Off ==> q == Off
  {
    Rgb(ScaleChannel(p.r, brightness), ScaleChannel(p.g, brightness), ScaleChannel(p.b, brightness))
  }

  /** Every channel of `p` is at most `m`. */
  predicate ChannelsAtMost(p: Rgb, m: int)
  {
    p.r <= m && p.g <= m && p.b <= m
  }

  /** Every channel of `p` is at most the same channel of `q`. */
  predicate NoBrighter(p: Rgb, q: Rgb)
  {
    p.r <= q.r && p.g <= q.g && p.b <= q.b
  }

  /** The colour constants unpack to their channels. */
  lemma ColorConstants()
    ensures Unpack(RED) == Rgb(255, 0, 0)
    ensures Unpack(GREEN) == Rgb(0, 255, 0)
    ensures Unpack(YELLOW) == Rgb(255, 255, 0)
    ensures Unpack(BLUE) == Rgb(0, 0, 255)
    ensures Unpack(WHITE) == Rgb(255, 255, 255)
    ensures Unpack(BLACK) == Off
  {
  }

  /**
   * Scaling a channel that is at most b + 1 by b keeps it at most b, and at
   * b == 1 takes it to zero: the bound behind the fade-out ending dark.
   */
  lemma ScaleBelowLevel(ch: uint8, b: uint8)
    requires 1 <= b && ch <= b + 1
    ensures ScaleChannel(ch, b) <= b
    ensures b == 1 ==> ScaleChannel(ch, b) == 0
  {
    MulBound(b, ch, b + 1);
    assert ch * b <= b * (b + 1);
    MulBound(b, b + 1, 256);
    if b < 255 {
      MulBound(b, b + 1, 255);
      assert ch * b <= 255 * b;
    }
  }
}
