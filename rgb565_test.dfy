/** The 8-bit colours of the test table, the conversions between them and the
    colour model, the table's vectors in both directions, and the round trip
    from a packed colour through an 8-bit colour back to itself. */
module Rgb565Test {
  import opened Bits
  import opened Rgb565

  /** A colour with 8 bits per channel. */
  datatype Rgba8 = Rgba8(r: u8, g: u8, b: u8, a: u8)

  /** The channels an 8-bit colour reports: each byte copied into both bytes of
      a 16-bit value. */
  function Widen(c: Rgba8): (w: InputColor)
    ensures w.Other? && w.r / 256 == w.r % 256 == c.r && w.g / 256 == w.g % 256 == c.g
    ensures w.b / 256 == w.b % 256 == c.b && w.a / 256 == w.a % 256 == c.a
  {
    Other(c.r as int * 257, c.g as int * 257, c.b as int * 257, c.a as int * 257)
  }

  /** Conversion of reported channels to an 8-bit colour: the high byte of each. */
  function Narrow(ch: Channels): Rgba8
  {
    Rgba8(ch.r / 256 % 256, ch.g / 256 % 256, ch.b / 256 % 256, ch.a / 256 % 256)
  }

  // ---------------------------------------------------------------------------

  /** An 8-bit colour packs to the top bits of its bytes, truncated: the low byte
      of a widened channel is the byte itself. */
  lemma WidenPack(c: Rgba8)
    ensures Pack(Widen(c)) == (c.r / 8) * 2048 + (c.g / 4) * 32 + c.b / 8
  {
    ModUnique(c.r as int * 257, 256, c.r, c.r);
    ModUnique(c.g as int * 257, 256, c.g, c.g);
    ModUnique(c.b as int * 257, 256, c.b, c.b);
  }

  /** Black packs to 0 and white to 0xFFFF, whatever the alpha. */
  lemma PackEndpoints(a: u8)
    ensures Pack(Widen(Rgba8(0, 0, 0, a))) == 0x0000
    ensures Pack(Widen(Rgba8(0xff, 0xff, 0xff, a))) == 0xFFFF
  {
    WidenPack(Rgba8(0, 0, 0, a));
    WidenPack(Rgba8(0xff, 0xff, 0xff, a));
  }

  /** One channel of an unpacked colour narrows to the field scaled to 8 bits,
      which truncates back to the field. */
  lemma ChannelRoundTrip(n: nat, max: nat)
    requires max == 31 || max == 63
    requires n <= max
    ensures Expand(n, max) * 256 / 256 % 256 == Expand(n, max)
    ensures Expand(n, max) / (if max == 31 then 8 else 4) == n
  {
    ExpandToByte(n, max);
    ModUnique(Expand(n, max) * 256, 256, Expand(n, max), 0);
    ModUnique(Expand(n, max), 256, 0, Expand(n, max));
  }

  /** Narrowing an unpacked colour gives each field scaled to 8 bits, and opaque alpha. */
  lemma NarrowUnpack(p: Color)
    ensures Narrow(Unpack(p)).r == Expand(RedField(p), 31)
    ensures Narrow(Unpack(p)).g == Expand(GreenField(p), 63)
    ensures Narrow(Unpack(p)).b == Expand(BlueField(p), 31)
    ensures Narrow(Unpack(p)).a == 0xff
  {
    ChannelRoundTrip(RedField(p), 31);
    ChannelRoundTrip(GreenField(p), 63);
    ChannelRoundTrip(BlueField(p), 31);
  }

  /** A packed colour is its three fields side by side. */
  lemma FieldsCompose(p: Color)
    ensures p == RedField(p) * 2048 + GreenField(p) * 32 + BlueField(p)
  {
    DivThenMod(p, 32, 64);
    var q := p % 2048;
    assert p == 2048 * (p / 2048) + q;
    assert q == 32 * (q / 32) + q % 32;
    ModUnique(q, 32, q / 32, p % 32);
  }

  /** The round trip on the unpacking and packing specifications. */
  lemma PackNarrowUnpack(p: Color)
    ensures Pack(Widen(Narrow(Unpack(p)))) == p
  {
    NarrowUnpack(p);
    ChannelRoundTrip(RedField(p), 31);
    ChannelRoundTrip(GreenField(p), 63);
    ChannelRoundTrip(BlueField(p), 31);
    WidenPack(Narrow(Unpack(p)));
    FieldsCompose(p);
  }

  /** Every packed colour survives the trip through an 8-bit colour: unpack it,
      keep the high byte of each channel, widen those bytes and convert them
      back with the colour model. */
  lemma RoundTrip(p: Color)
    ensures ToColor(Widen(Narrow(Rgba(p)))) == p
  {
    PackNarrowUnpack(p);
  }

  /** After one trip through the packed form, an 8-bit colour no longer changes:
      packing and unpacking is idempotent on its results. */
  lemma RoundTripStable(c: Rgba8)
    ensures var c' := Narrow(Rgba(ToColor(Widen(c))));
      Narrow(Rgba(ToColor(Widen(c')))) == c'
  {
    RoundTrip(ToColor(Widen(c)));
  }

  // ---------------------------------------------------------------------------
  // The test table

  // Each row as a packing vector and an unpacking vector.

  /** Row 1 of the test table, packed. */
  lemma PackRow1()
    ensures Pack(Widen(Rgba8(0x00, 0x00, 0x00, 0xff))) == 0x0000
  {}

  /** Row 2 of the test table, packed. */
  lemma PackRow2()
    ensures Pack(Widen(Rgba8(0x84, 0x00, 0x00, 0xff))) == 0x8000
  {}

  /** Row 3 of the test table, packed. */
  lemma PackRow3()
    ensures Pack(Widen(Rgba8(0x00, 0x82, 0x00, 0xff))) == 0x0400
  {}

  /** Row 4 of the test table, packed. */
  lemma PackRow4()
    ensures Pack(Widen(Rgba8(0x00, 0x00, 0x84, 0xff))) == 0x0010
  {}

  /** Row 5 of the test table, packed. */
  lemma PackRow5()
    ensures Pack(Widen(Rgba8(0x00, 0x2d, 0x84, 0xff))) == 0x0170
  {}

  /** Row 6 of the test table, packed. */
  lemma PackRow6()
    ensures Pack(Widen(Rgba8(0x84, 0x2d, 0x84, 0xff))) == 0x8170
  {}

  /** Row 7 of the test table, packed. */
  lemma PackRow7()
    ensures Pack(Widen(Rgba8(0x84, 0xff, 0xff, 0xff))) == 0x87ff
  {}

  /** Row 8 of the test table, packed. */
  lemma PackRow8()
    ensures Pack(Widen(Rgba8(0x84, 0x82, 0xff, 0xff))) == 0x841f
  {}

  /** Row 9 of the test table, packed. */
  lemma PackRow9()
    ensures Pack(Widen(Rgba8(0x84, 0x82, 0x84, 0xff))) == 0x8410
  {}

  /** Row 10 of the test table, packed. */
  lemma PackRow10()
    ensures Pack(Widen(Rgba8(0xff, 0xff, 0xff, 0xff))) == 0xFFFF
  {}

  /** Row 1 of the test table, unpacked. */
  lemma UnpackRow1()
    ensures Narrow(Unpack(0x0000)) == Rgba8(0x00, 0x00, 0x00, 0xff)
  {
    assert RedField(0x0000) == 0 && GreenField(0x0000) == 0 && BlueField(0x0000) == 0;
    Expand31(0); Expand63(0);
    assert Unpack(0x0000) == Channels(0x0000, 0x0000, 0x0000, 0xffff);
  }

  /** Row 2 of the test table, unpacked. */
  lemma UnpackRow2()
    ensures Narrow(Unpack(0x8000)) == Rgba8(0x84, 0x00, 0x00, 0xff)
  {
    assert RedField(0x8000) == 16 && GreenField(0x8000) == 0 && BlueField(0x8000) == 0;
    Expand31(16); Expand63(0); Expand31(0);
    assert Unpack(0x8000) == Channels(0x8400, 0x0000, 0x0000, 0xffff);
  }

  /** Row 3 of the test table, unpacked. */
  lemma UnpackRow3()
    ensures Narrow(Unpack(0x0400)) == Rgba8(0x00, 0x82, 0x00, 0xff)
  {
    assert RedField(0x0400) == 0 && GreenField(0x0400) == 32 && BlueField(0x0400) == 0;
    Expand31(0); Expand63(32);
    assert Unpack(0x0400) == Channels(0x0000, 0x8200, 0x0000, 0xffff);
  }

  /** Row 4 of the test table, unpacked. */
  lemma UnpackRow4()
    ensures Narrow(Unpack(0x0010)) == Rgba8(0x00, 0x00, 0x84, 0xff)
  {
    assert RedField(0x0010) == 0 && GreenField(0x0010) == 0 && BlueField(0x0010) == 16;
    Expand31(0); Expand63(0); Expand31(16);
    assert Unpack(0x0010) == Channels(0x0000, 0x0000, 0x8400, 0xffff);
  }

  /** Row 5 of the test table, unpacked. */
  lemma UnpackRow5()
    ensures Narrow(Unpack(0x0170)) == Rgba8(0x00, 0x2d, 0x84, 0xff)
  {
    assert RedField(0x0170) == 0 && GreenField(0x0170) == 11 && BlueField(0x0170) == 16;
    Expand31(0); Expand63(11); Expand31(16);
    assert Unpack(0x0170) == Channels(0x0000, 0x2d00, 0x8400, 0xffff);
  }

  /** Row 6 of the test table, unpacked. */
  lemma UnpackRow6()
    ensures Narrow(Unpack(0x8170)) == Rgba8(0x84, 0x2d, 0x84, 0xff)
  {
    assert RedField(0x8170) == 16 && GreenField(0x8170) == 11 && BlueField(0x8170) == 16;
    Expand31(16); Expand63(11);
    assert Unpack(0x8170) == Channels(0x8400, 0x2d00, 0x8400, 0xffff);
  }

  /** Row 7 of the test table, unpacked. */
  lemma UnpackRow7()
    ensures Narrow(Unpack(0x87ff)) == Rgba8(0x84, 0xff, 0xff, 0xff)
  {
    assert RedField(0x87ff) == 16 && GreenField(0x87ff) == 63 && BlueField(0x87ff) == 31;
    Expand31(16); Expand63(63); Expand31(31);
    assert Unpack(0x87ff) == Channels(0x8400, 0xff00, 0xff00, 0xffff);
  }

  /** Row 8 of the test table, unpacked. */
  lemma UnpackRow8()
    ensures Narrow(Unpack(0x841f)) == Rgba8(0x84, 0x82, 0xff, 0xff)
  {
    assert RedField(0x841f) == 16 && GreenField(0x841f) == 32 && BlueField(0x841f) == 31;
    Expand31(16); Expand63(32); Expand31(31);
    assert Unpack(0x841f) == Channels(0x8400, 0x8200, 0xff00, 0xffff);
  }

  /** Row 9 of the test table, unpacked. */
  lemma UnpackRow9()
    ensures Narrow(Unpack(0x8410)) == Rgba8(0x84, 0x82, 0x84, 0xff)
  {
    assert RedField(0x8410) == 16 && GreenField(0x8410) == 32 && BlueField(0x8410) == 16;
    Expand31(16); Expand63(32);
    assert Unpack(0x8410) == Channels(0x8400, 0x8200, 0x8400, 0xffff);
  }

  /** Row 10 of the test table, unpacked. */
  lemma UnpackRow10()
    ensures Narrow(Unpack(0xFFFF)) == Rgba8(0xff, 0xff, 0xff, 0xff)
  {
    assert RedField(0xFFFF) == 31 && GreenField(0xFFFF) == 63 && BlueField(0xFFFF) == 31;
    Expand31(31); Expand63(63);
    assert Unpack(0xFFFF) == Channels(0xff00, 0xff00, 0xff00, 0xffff);
  }

  /** The conversion truncates rather than rounds: 7 * 31 / 255 is about 0.85,
      yet an 8-bit red of 7 packs to a red field of 0. */
  lemma PackTruncates()
    ensures Pack(Widen(Rgba8(7, 0, 0, 0xff))) == 0
  {
    WidenPack(Rgba8(7, 0, 0, 0xff));
  }
}
