/**
  Bytes and packed pixel words.

  The engine hands out RGBA bytes; the surface holds one 32-bit word per pixel
  with alpha in the top byte, then red, green and blue. On a little-endian
  machine the bytes of such a word lie in memory as B, G, R, A, which is the
  "BGRA (word-order)" layout named in nsWEBPDecoder.cpp.
*/
module Pixels {
  newtype byte = x: int | 0 <= x < 0x100
  newtype Pixel = x: int | 0 <= x < 0x1_0000_0000

  /** gfxPackedPixelNoPreMultiply(a, r, g, b): the channels are placed as they
      are, without premultiplying the colour channels by alpha. */
  function Pack(a: byte, r: byte, g: byte, b: byte): (w: Pixel)
  {
    var v := a as int * 0x100_0000 + r as int * 0x1_0000 + g as int * 0x100 + b as int;
    ChannelsOf(a as int, r as int, g as int, b as int);
    v as Pixel
  }

  function Alpha(w: Pixel): byte { (w as int / 0x100_0000) as byte }
  function Red(w: Pixel): byte { (w as int / 0x1_0000 % 0x100) as byte }
  function Green(w: Pixel): byte { (w as int / 0x100 % 0x100) as byte }
  function Blue(w: Pixel): byte { (w as int % 0x100) as byte }

  /** The bytes of a word in memory order on a little-endian machine. */
  function MemoryBytes(w: Pixel): (bytes: seq<byte>)
  {
    [Blue(w), Green(w), Red(w), Alpha(w)]
  }

  /** Unpacking a packed word gives back its four channels. */
  lemma PackChannels(a: byte, r: byte, g: byte, b: byte)
    ensures var w := Pack(a, r, g, b);
      Alpha(w) == a && Red(w) == r && Green(w) == g && Blue(w) == b
  {
    ChannelsOf(a as int, r as int, g as int, b as int);
  }

  /** Packing loses no channel: two words are equal exactly when their four
      channels are. */
  lemma PackInjective(a: byte, r: byte, g: byte, b: byte, a': byte, r': byte, g': byte, b': byte)
    ensures Pack(a, r, g, b) == Pack(a', r', g', b') <==> (a, r, g, b) == (a', r', g', b')
  {
    PackChannels(a, r, g, b);
    PackChannels(a', r', g', b');
  }

  /** A packed word lies in memory as B, G, R, A. */
  lemma PackMemoryOrder(a: byte, r: byte, g: byte, b: byte)
    ensures MemoryBytes(Pack(a, r, g, b)) == [b, g, r, a]
  {
    PackChannels(a, r, g, b);
  }

  lemma ChannelsOf(a: int, r: int, g: int, b: int)
    requires 0 <= a < 0x100 && 0 <= r < 0x100 && 0 <= g < 0x100 && 0 <= b < 0x100
    ensures var v := a * 0x100_0000 + r * 0x1_0000 + g * 0x100 + b;
      && 0 <= v < 0x1_0000_0000
      && v / 0x100_0000 == a
      && v / 0x1_0000 % 0x100 == r
      && v / 0x100 % 0x100 == g
      && v % 0x100 == b
  {
    var v := a * 0x100_0000 + r * 0x1_0000 + g * 0x100 + b;
    var low := r * 0x1_0000 + g * 0x100 + b;
    assert 0 <= low < 0x100_0000;
    assert v / 0x1_0000 == a * 0x100 + r;
    assert v / 0x100 == a * 0x1_0000 + r * 0x100 + g;
  }
}
