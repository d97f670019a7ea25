/** The RGB565 packed colour and the in-memory image whose pixels are stored in
    it, two bytes per pixel, little-endian. */
module Rgb565 {
  import opened Bits

  /** A packed RGB565 colour: red in bits 15-11, green in bits 10-5, blue in bits 4-0. */
  type Color = u16

  /** A colour handed to the colour model: one that is already packed, or any
      other colour, given by the four channels its RGBA method returns (32-bit
      words that, for every colour, hold a 16-bit value). */
  datatype InputColor =
    | Packed(p: Color)
    | Other(r: u16, g: u16, b: u16, a: u16)

  /** The four 32-bit words returned by an RGBA method. */
  datatype Channels = Channels(r: u32, g: u32, b: u32, a: u32)

  // ---------------------------------------------------------------------------
  // Bit fields of a packed colour, as arithmetic

  function RedField(c: Color): (n: nat)
    ensures n < 32
  {
    c / 2048
  }

  function GreenField(c: Color): (n: nat)
    ensures n < 64
  {
    c / 32 % 64
  }

  function BlueField(c: Color): (n: nat)
    ensures n < 32
  {
    c % 32
  }

  /** Scales a field with levels 0 .. max to 8 bits, rounding `n * 255 / max` to
      the nearest integer (see ExpandIsNearest). */
  function Expand(n: nat, max: nat): nat
    requires max > 0
  {
    (2 * n * 255 + max) / (2 * max)
  }

  // ---------------------------------------------------------------------------
  // Reference definitions of packing and unpacking, in arithmetic

  /** What packing means: a packed colour stays as it is; any other colour keeps
      the top five (red, blue) or six (green) bits of the LOW byte of each
      channel, truncating, and drops alpha. */
  function Pack(c: InputColor): Color
  {
    match c
    case Packed(p) => p
    case Other(r, g, b, _) => (r % 256 / 8) * 2048 + (g % 256 / 4) * 32 + b % 256 / 8
  }

  /** What unpacking means: each field scaled to 8 bits with rounding, in the
      high byte of its channel; alpha opaque. */
  function Unpack(c: Color): Channels
  {
    Channels(Expand(RedField(c), 31) * 256, Expand(GreenField(c), 63) * 256,
             Expand(BlueField(c), 31) * 256, 0xffff)
  }

  // ---------------------------------------------------------------------------
  // The source's bit expressions

  /** The colour model's conversion function: a packed colour is returned as it
      is, any other colour is reduced with the source's masks and shifts. The
      result is Pack(c). */
  function ToColor(c: InputColor): (p: Color)
    ensures p == Pack(c)
  {
    match c
    case Packed(p) => p
    case Other(r, g, b, a) =>
      PackMasksMeaning(r, g, b, a);
      Or(Or(And(Shl(r, 8), 0xF800), And(Shl(g, 3), 0x07E0)), And(Shr(b, 3), 0x001F))
  }

  /** The RGBA method of a packed colour, with the source's masks and shifts and
      `round(field * 255 / max)` computed exactly in integers. The result is
      Unpack(c). */
  function Rgba(c: Color): (ch: Channels)
    ensures ch == Unpack(c)
  {
    var r := Shr(And(c, 0xF800), 11);
    var g := Shr(And(c, 0x07E0), 5);
    var b := Shr(And(c, 0x001F), 0);
    UnpackMasksMeaning(c);
    Channels(ExpandToHighByte(r, 31), ExpandToHighByte(g, 63), ExpandToHighByte(b, 31), 0xffff)
  }

  /** One channel of Rgba: `uint32(round(f * 255 / max)) << 8`. */
  function ExpandToHighByte(f: nat, max: nat): (v: u32)
    requires max == 31 || max == 63
    requires f <= max
    ensures v == Expand(f, max) * 256
  {
    ExpandToByte(f, max);
    ShiftByte(Expand(f, max));
    Shl(Expand(f, max), 8)
  }

  // ---------------------------------------------------------------------------
  // Properties of packing

  /** Packing an already packed colour changes nothing, so packing is idempotent. */
  lemma PackIdempotent(c: InputColor)
    ensures Pack(Packed(Pack(c))) == Pack(c)
  {}

  /** Alpha has no effect on the packed value. */
  lemma PackIgnoresAlpha(r: u16, g: u16, b: u16, a1: u16, a2: u16)
    ensures Pack(Other(r, g, b, a1)) == Pack(Other(r, g, b, a2))
  {}

  /** The fields of a packed generic colour are the truncated low bytes of its
      channels. */
  lemma PackFields(r: u16, g: u16, b: u16, a: u16)
    ensures RedField(Pack(Other(r, g, b, a))) == r % 256 / 8
    ensures GreenField(Pack(Other(r, g, b, a))) == g % 256 / 4
    ensures BlueField(Pack(Other(r, g, b, a))) == b % 256 / 8
  {
    var p := Pack(Other(r, g, b, a));
    var rf, gf, bf := r % 256 / 8, g % 256 / 4, b % 256 / 8;
    assert p == 2048 * rf + (32 * gf + bf);
    ModUnique(p, 2048, rf, 32 * gf + bf);
    ModUnique(p, 32, 64 * rf + gf, bf);
    ModUnique(64 * rf + gf, 64, rf, gf);
  }

  /** Only the low byte of each channel is read: two generic colours whose
      channels agree in their low bytes pack alike, whatever their high bytes. */
  lemma PackReadsLowByte(c1: InputColor, c2: InputColor)
    requires c1.Other? && c2.Other?
    requires c1.r % 256 == c2.r % 256 && c1.g % 256 == c2.g % 256 && c1.b % 256 == c2.b % 256
    ensures Pack(c1) == Pack(c2)
  {}

  /** Every channel of an unpacked colour has a zero low byte, so packing those
      channels as a generic colour gives black: only the packed-colour case of
      the conversion keeps an unpacked colour intact. */
  lemma PackUnpackedChannelsIsBlack(p: Color)
    ensures Pack(Other(Unpack(p).r, Unpack(p).g, Unpack(p).b, Unpack(p).a)) == 0
  {
    UnpackBounds(p);
  }

  // ---------------------------------------------------------------------------
  // Properties of unpacking

  /** Every unpacked channel is at most 0xff00 and has a zero low byte; alpha is opaque. */
  lemma UnpackBounds(c: Color)
    ensures Unpack(c).r <= 0xff00 && Unpack(c).g <= 0xff00 && Unpack(c).b <= 0xff00
    ensures Unpack(c).r % 256 == 0 && Unpack(c).g % 256 == 0 && Unpack(c).b % 256 == 0
    ensures Unpack(c).a == 0xffff
  {
    ChannelBounds(RedField(c), 31);
    ChannelBounds(GreenField(c), 63);
    ChannelBounds(BlueField(c), 31);
  }

  /** Black and white unpack to the extreme channel values. */
  lemma UnpackEndpoints()
    ensures Unpack(0x0000).r == 0 && Unpack(0x0000).g == 0 && Unpack(0x0000).b == 0
    ensures Unpack(0xFFFF).r == 0xff00 && Unpack(0xFFFF).g == 0xff00 && Unpack(0xFFFF).b == 0xff00
  {
    assert RedField(0x0000) == 0 && GreenField(0x0000) == 0 && BlueField(0x0000) == 0;
    assert RedField(0xFFFF) == 31 && GreenField(0xFFFF) == 63 && BlueField(0xFFFF) == 31;
    ExpandToByte(0, 31);
    ExpandToByte(0, 63);
  }

  lemma ChannelBounds(n: nat, max: nat)
    requires max == 31 || max == 63
    requires n <= max
    ensures Expand(n, max) * 256 <= 0xff00 && Expand(n, max) * 256 % 256 == 0
  {
    ExpandToByte(n, max);
    HighByteOnly(Expand(n, max));
  }

  /** The integer formula of Expand is exact rounding: for an odd `max`,
      `n * 255 / max` is never half-way between two integers, and Expand(n, max)
      lies strictly within one half of it, so rounding half away from zero
      yields the same integer. */
  lemma {:induction false} ExpandIsNearest(n: nat, max: nat)
    requires max > 0 && max % 2 == 1
    ensures max * (2 * Expand(n, max) - 1) < 2 * n * 255 < max * (2 * Expand(n, max) + 1)
  {
    var e: int := Expand(n, max);
    var d: int := 2 * max;
    var rem := (2 * n * 255 + max) % d;
    assert 2 * n * 255 + max == d * e + rem;
    assert rem == 2 * (n * 255 - max * e) + max;
    assert rem != 0;
    assert 2 * n * 255 == max * (2 * e - 1) + rem;
    assert max * (2 * e + 1) == max * (2 * e - 1) + d;
  }

  /** A field of levels 0 .. max expands to at most 255, with both endpoints exact. */
  lemma ExpandToByte(n: nat, max: nat)
    requires max == 31 || max == 63
    requires n <= max
    ensures Expand(n, max) <= 255
    ensures Expand(0, max) == 0 && Expand(max, max) == 255
  {
    if max == 31 {
      Expand31(n); Expand31(0); Expand31(31);
    } else {
      Expand63(n); Expand63(0); Expand63(63);
    }
  }

  /** Expand with the divisor of a 5-bit field written out. */
  lemma Expand31(n: nat)
    ensures Expand(n, 31) == (510 * n + 31) / 62
  {}

  /** Expand with the divisor of a 6-bit field written out. */
  lemma Expand63(n: nat)
    ensures Expand(n, 63) == (510 * n + 63) / 126
  {}

  lemma HighByteOnly(e: nat)
    requires e <= 255
    ensures e * 256 <= 0xff00 && e * 256 % 256 == 0
  {
    ModUnique(e * 256, 256, e, 0);
  }

  lemma ShiftByte(e: nat)
    requires e <= 255
    ensures Shl(e, 8) == e * 256 <= 0xff00
  {
    assert Pow2(8) == 256;
  }

  // ---------------------------------------------------------------------------
  // What the masks and shifts compute

  /** The masks of the conversion select the truncated low bytes, and the fields
      do not overlap. */
  lemma PackMasksMeaning(r: u16, g: u16, b: u16, a: u16)
    ensures Or(Or(And(Shl(r, 8), 0xF800), And(Shl(g, 3), 0x07E0)), And(Shr(b, 3), 0x001F))
      == Pack(Other(r, g, b, a))
  {
    var rf, gf, bf := r % 256 / 8, g % 256 / 4, b % 256 / 8;
    assert Pow2(0) == 1 && Pow2(5) == 32 && Pow2(6) == 64 && Pow2(11) == 2048;
    assert Shl(r, 8) == r * 256 && Shl(g, 3) == g * 8 && Shr(b, 3) == b / 8;
    assert Mask(11, 5) == 0xF800 && Mask(5, 6) == 0x07E0 && Mask(0, 5) == 0x001F;
    AndMask(r * 256, 11, 5);
    AndMask(g * 8, 5, 6);
    AndMask(b / 8, 0, 5);
    DivUnique(r * 256, 2048, r / 8, r % 8 * 256);
    DivThenMod(r, 8, 32);
    DivUnique(g * 8, 32, g / 4, g % 4 * 8);
    DivThenMod(g, 4, 64);
    DivThenMod(b, 8, 32);
    assert And(Shl(r, 8), 0xF800) == rf * 2048;
    assert And(Shl(g, 3), 0x07E0) == gf * 32;
    assert b / 8 / 1 % 32 * 1 == bf;
    assert And(Shr(b, 3), 0x001F) == bf;
    OrFields(rf, gf, bf);
  }

  /** Or-ing the three shifted fields adds them: their bits do not overlap. */
  lemma OrFields(rf: nat, gf: nat, bf: nat)
    requires rf < 32 && gf < 64 && bf < 32
    ensures Or(Or(rf * 2048, gf * 32), bf) == rf * 2048 + gf * 32 + bf
  {
    assert Pow2(5) == 32 && Pow2(11) == 2048;
    ModUnique(rf * 2048, 2048, rf, 0);
    OrDisjoint(rf * 2048, gf * 32, 11);
    ModUnique(rf * 2048 + gf * 32, 32, rf * 64 + gf, 0);
    OrDisjoint(rf * 2048 + gf * 32, bf, 5);
  }

  /** The masks and shifts of Rgba select the three fields. */
  lemma UnpackMasksMeaning(c: Color)
    ensures Shr(And(c, 0xF800), 11) == RedField(c)
    ensures Shr(And(c, 0x07E0), 5) == GreenField(c)
    ensures Shr(And(c, 0x001F), 0) == BlueField(c)
  {
    assert Pow2(0) == 1 && Pow2(5) == 32 && Pow2(6) == 64 && Pow2(11) == 2048;
    assert Mask(11, 5) == 0xF800 && Mask(5, 6) == 0x07E0 && Mask(0, 5) == 0x001F;
    var rf, gf, bf := RedField(c), GreenField(c), BlueField(c);
    AndMask(c, 11, 5);
    ModUnique(c / 2048, 32, 0, rf);
    assert And(c, 0xF800) == rf * 2048;
    DivUnique(rf * 2048, 2048, rf, 0);
    AndMask(c, 5, 6);
    assert And(c, 0x07E0) == gf * 32;
    DivUnique(gf * 32, 32, gf, 0);
    AndMask(c, 0, 5);
    assert c / 1 == c;
    assert And(c, 0x001F) == bf;
  }

  // ---------------------------------------------------------------------------
  // Two bytes per pixel, little-endian

  /** `binary.LittleEndian.Uint16`: the first byte is the low one. */
  function LittleEndianUint16(b0: u8, b1: u8): (v: u16)
    ensures v == b0 as int + 256 * b1 as int
  {
    assert Pow2(8) == 256;
    ModUnique(Shl(b1, 8), 256, b1, 0);
    OrDisjointLow(b0, Shl(b1, 8), 8);
    Or(b0, Shl(b1, 8))
  }

  /** The first byte `binary.LittleEndian.PutUint16` stores: `byte(v)`. */
  function LowByte(v: u16): u8
  {
    v % 256
  }

  /** The second byte `binary.LittleEndian.PutUint16` stores: `byte(v >> 8)`. */
  function HighByte(v: u16): (b: u8)
    ensures b == v / 256
  {
    Shr(v, 8) % 256
  }

  /** `binary.LittleEndian.PutUint16` on the two bytes of `a` from `i`: they
      become `byte(v)` and `byte(v >> 8)`, they read back as `v`, and no other
      byte changes. */
  method PutUint16(a: array<u8>, i: int, v: u16)
    requires 0 <= i && i + 1 < a.Length
    modifies a
    ensures a[..] == old(a[..])[i := LowByte(v)][i + 1 := HighByte(v)]
    ensures forall j :: 0 <= j < a.Length && j != i && j != i + 1 ==> a[j] == old(a[j])
    ensures LittleEndianUint16(a[i], a[i + 1]) == v
  {
    a[i] := LowByte(v);
    a[i + 1] := HighByte(v);
    LittleEndianRoundTrip(v);
  }

  /** Storing a value as two bytes and reading them back gives the value. */
  lemma LittleEndianRoundTrip(v: u16)
    ensures LittleEndianUint16(LowByte(v), HighByte(v)) == v
  {
    assert Pow2(8) == 256;
    ModUnique(v / 256, 256, 0, v / 256);
  }

  // ---------------------------------------------------------------------------
  // Geometry

  datatype Point = Point(x: int, y: int) {
    /** `image.Point.In`: whether the point lies inside the half-open rectangle,
        which therefore has positive width and height. */
    predicate In(r: Rectangle)
      ensures In(r) ==> r.Dx() > 0 && r.Dy() > 0
    {
      r.min.x <= x < r.max.x && r.min.y <= y < r.max.y
    }
  }

  datatype Rectangle = Rectangle(min: Point, max: Point) {
    /** The width; negative exactly when Max lies left of Min. */
    function Dx(): (d: int)
      ensures d < 0 <==> max.x < min.x
    {
      max.x - min.x
    }

    /** The height; negative exactly when Max lies above Min. */
    function Dy(): (d: int)
      ensures d < 0 <==> max.y < min.y
    {
      max.y - min.y
    }
  }

  /** The slot of the pixel `dx` columns and `dy` rows into a w-by-h grid lies
      within the buffer and starts at an even offset. */
  lemma SlotInBounds(dx: int, dy: int, w: int, h: int)
    ensures 0 <= dx < w && 0 <= dy < h ==>
      0 <= dy * (2 * w) + dx * 2 && dy * (2 * w) + dx * 2 + 2 <= (2 * w) * h
      && (dy * (2 * w) + dx * 2) % 2 == 0
  {
    if 0 <= dx < w && 0 <= dy < h {
      MulMono(2 * w, dy + 1, h);
      assert dy * (2 * w) + dx * 2 == 2 * (dy * w + dx);
    }
  }

  /** Slots of two different pixels of a w-wide grid do not overlap. */
  lemma SlotsApart(dx1: int, dy1: int, dx2: int, dy2: int, w: int)
    requires 0 <= dx1 < w && 0 <= dx2 < w && 0 <= dy1 && 0 <= dy2
    requires dx1 != dx2 || dy1 != dy2
    ensures dy1 * (2 * w) + dx1 * 2 + 2 <= dy2 * (2 * w) + dx2 * 2
         || dy2 * (2 * w) + dx2 * 2 + 2 <= dy1 * (2 * w) + dx1 * 2
  {
    if dy1 < dy2 {
      MulMono(2 * w, dy1 + 1, dy2);
    } else if dy2 < dy1 {
      MulMono(2 * w, dy2 + 1, dy1);
    }
  }

  // ---------------------------------------------------------------------------
  // The image

  /** An in-memory image of RGB565 pixels: the pixel at (x, y) occupies the two
      bytes of `pix` starting at PixOffset(x, y), low byte first. */
  class Image {
    var pix: array<u8>
    /** Bytes between vertically adjacent pixels. */
    var stride: int
    var rect: Rectangle

    /** The layout the allocation sets up and no operation changes. */
    ghost predicate Valid()
      reads this
    {
      stride == 2 * rect.Dx() && pix.Length == stride * rect.Dy()
    }

    /** A zero-filled image with the given bounds. Go's `make` panics on a
        negative length, which is the one rectangle this refuses; a rectangle
        with Max below Min but a non-negative 2 * Dx * Dy gets a buffer and
        contains no point. */
    constructor (r: Rectangle)
      requires 2 * r.Dx() * r.Dy() >= 0
      ensures Valid() && fresh(pix)
      ensures rect == r && stride == 2 * r.Dx() && pix.Length == 2 * r.Dx() * r.Dy()
      ensures forall i :: 0 <= i < pix.Length ==> pix[i] == 0
      ensures forall x, y :: At(x, y) == 0
    {
      pix := new u8[2 * r.Dx() * r.Dy()](_ => 0);
      stride := 2 * r.Dx();
      rect := r;
    }

    function Bounds(): (r: Rectangle)
      reads this
      ensures r == rect
      ensures Valid() ==> pix.Length == 2 * r.Dx() * r.Dy()
    {
      rect
    }

    /** The image's colour model: the conversion Set applies to every colour. */
    function ColorModel(): (m: InputColor -> Color)
      ensures forall c :: m(c) == Pack(c)
    {
      ToColor
    }

    /** The offset in `pix` of the first byte of pixel (x, y). */
    function PixOffset(x: int, y: int): (i: int)
      reads this
      ensures Valid() && Point(x, y).In(rect) ==> 0 <= i && i + 2 <= pix.Length && i % 2 == 0
    {
      SlotInBounds(x - rect.min.x, y - rect.min.y, rect.Dx(), rect.Dy());
      (y - rect.min.y) * stride + (x - rect.min.x) * 2
    }

    /** Different pixels inside the bounds own disjoint pairs of bytes. */
    lemma SlotsDisjoint(x1: int, y1: int, x2: int, y2: int)
      requires Valid() && Point(x1, y1).In(rect) && Point(x2, y2).In(rect)
      requires x1 != x2 || y1 != y2
      ensures PixOffset(x1, y1) + 2 <= PixOffset(x2, y2) || PixOffset(x2, y2) + 2 <= PixOffset(x1, y1)
    {
      SlotsApart(x1 - rect.min.x, y1 - rect.min.y, x2 - rect.min.x, y2 - rect.min.y, rect.Dx());
    }

    /** The packed colour of pixel (x, y); 0 outside the bounds. */
    function At(x: int, y: int): (c: Color)
      reads this, pix
      requires Valid()
      ensures !Point(x, y).In(rect) ==> c == 0
      ensures Point(x, y).In(rect) ==>
        c == pix[PixOffset(x, y)] as int + 256 * pix[PixOffset(x, y) + 1] as int
    {
      if !Point(x, y).In(rect) then 0
      else
        var i := PixOffset(x, y);
        LittleEndianUint16(pix[i], pix[i + 1])
    }

    /** Stores colour `c`, converted by the colour model, at pixel (x, y); does
        nothing outside the bounds. */
    method Set(x: int, y: int, c: InputColor)
      requires Valid()
      modifies pix
      ensures Valid()
      ensures !Point(x, y).In(rect) ==> pix[..] == old(pix[..])
      ensures Point(x, y).In(rect) ==>
        pix[..] == old(pix[..])[PixOffset(x, y) := LowByte(Pack(c))][PixOffset(x, y) + 1 := HighByte(Pack(c))]
      ensures Point(x, y).In(rect) ==> At(x, y) == Pack(c)
      ensures forall x', y' :: x' != x || y' != y ==> At(x', y') == old(At(x', y'))
    {
      if !Point(x, y).In(rect) {
        return;
      }
      var i := PixOffset(x, y);
      PutUint16(pix, i, ToColor(c));
      forall x', y' | x' != x || y' != y
        ensures At(x', y') == old(At(x', y'))
      {
        if Point(x', y').In(rect) {
          SlotsDisjoint(x, y, x', y');
        }
      }
    }
  }
}
