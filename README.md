# rgb565 in Dafny

This project models the Go package `rgb565`. The package provides a 16-bit packed
colour type and an in-memory image that stores such colours two bytes per pixel.

- **Packed colour.** `Color` is a `uint16` with red in bits 15-11, green in bits
  10-5 and blue in bits 4-0.
  - The colour model (`rgb565Model`) packs any colour.
  - The `RGBA` method unpacks a colour into four 16-bit-scaled channels.
- **Image.** `RGB565` holds a byte buffer `Pix`, a `Stride` and a bounding `Rect`.
  - `NewRGB565` allocates a zeroed buffer.
  - `PixOffset` computes the row-major byte offset of a pixel.
  - `At` and `Set` read and write a pixel's two bytes, low byte first. Outside the
    bounds `At` returns 0 and `Set` does nothing.

The project has three files:

- `bits.dfy`, module `Bits`
  - Go's unsigned `&`, `|`, `<<` and `>>` on natural numbers: `And` and `Or`
    work bit by bit, the shifts multiply or divide by powers of two.
  - The integer ranges `u8`, `u16` and `u32`.
  - Lemmas about contiguous masks and non-overlapping fields.
- `rgb565.dfy`, module `Rgb565`
  - Two reference definitions in plain arithmetic: `Pack` (what packing means)
    and `Unpack` (what unpacking means).
  - The source's own bit expressions: `ToColor` is the colour model and `Rgba` is
    the `RGBA` method. Each is proved equal to its reference definition for every
    input.
  - The image as the class `Image`, with `pix: array<u8>`, a layout invariant
    `Valid()`, and the functions `At`, `PixOffset`, `Bounds` and `ColorModel`.
    `Set` is a method that changes two bytes of `pix` in place, through the
    method `PutUint16`.
- `rgb565_test.dfy`, module `Rgb565Test`
  - The test table's two conversions. `Widen` copies each byte of an 8-bit
    colour into both bytes of a 16-bit channel, as `color.RGBA.RGBA` does.
    `Narrow` keeps the high byte of each channel, as `color.RGBAModel.Convert` does.
  - One lemma per vector of the table, in each direction.
  - The round trip property, proved for all packed colours.

A colour handed to the colour model is the datatype `InputColor`:

- `Packed(p)` is a colour that is already a `Color`. This is the type-switch
  branch at rgb565.go:85-87.
- `Other(r, g, b, a)` is any other colour, given by the four 16-bit channel values
  its `RGBA` method returns.

In the source, `math.Round(float64(f)*255/max)` computes each 8-bit level. Here
it is the exact integer formula `(2*f*255 + max) / (2*max)`. `ExpandIsNearest`
proves that for odd `max` this formula lies strictly within one half of
`f*255/max`. So it is the nearest integer, there is never a tie, and
round-half-away-from-zero of the exact quotient agrees with it. The float64
quotient is not modelled (see "## Left out").

The model follows the code in four places where it departs from a common
convention for RGB565 conversion:

- **Packing truncates.** Round-to-nearest quantisation would give
  `round(c*31/255)` and `round(c*63/255)`. The code masks and shifts instead,
  which truncates: `PackTruncates` shows that an 8-bit red of 7 packs to field 0
  rather than 1.
- **Packing reads the low byte.** `(r<<8)&0xF800` takes bits 3-7 of the 16-bit
  channel, and the green and blue terms likewise read bits of the low byte.
  Packing therefore keeps the top bits of each channel's *low* byte.
  - For byte-replicated channels, such as those `color.RGBA` reports, this is
    the same as reading the high byte. The test table uses only such colours.
  - Otherwise the high byte is ignored (`PackReadsLowByte`).
  - In particular, converting the channels of an unpacked colour without the
    type switch yields black (`PackUnpackedChannelsIsBlack`).
- **Unpacking leaves the low byte zero.** Go's own `color.RGBA.RGBA` widens a
  byte `v` to `v<<8 | v`, repeating it in the low byte. The code shifts the 8-bit
  level left by 8 and nothing more, so the low byte is zero (`UnpackBounds`).
- **Byte order is little-endian.** RGB565 pixels are commonly laid out
  big-endian, high byte first. The code stores and reads pixels little-endian,
  through `binary.LittleEndian.PutUint16` and `Uint16`.

The vectors are stated on `Pack` and `Unpack`. The test calls
`Model.Convert`, which here is `ToColor`, and `RGBA`, which here is `Rgba`.
`ToColor` is proved equal to `Pack` for every input and `Rgba` to `Unpack`, so
the vectors hold for the source's expressions too. `RoundTrip` states its
property on `ToColor` and `Rgba` directly.

## Model

| member | source | states |
|---|---|---|
| Bits.And | rgb565.go:71-73 | Go's `&` on unsigned values, bit by bit from the least significant. The result keeps only bits set in both operands, so it exceeds neither. |
| Bits.Or | rgb565.go:91 | Go's `\|` on unsigned values, bit by bit. The result is at least each operand and at most their sum, because or-ing never carries. |
| Bits.Shl | rgb565.go:75-77 | Go's `<<` on a value whose result type rules out overflow: multiplication by 2^k. The low k bits of the result are zero, and dividing by 2^k recovers the operand. |
| Bits.Shr | rgb565.go:71-73 | Go's `>>` on an unsigned value: floor division by 2^k. This is a definition; its uses are characterised by UnpackMasksMeaning and PackMasksMeaning. |
| Bits.AndMask | rgb565.go:71-73 | `x & mask`, where the mask is `w` one bits from bit `lo`, equals bits lo..lo+w-1 of `x` left in place: `x / 2^lo % 2^w * 2^lo`. Proved by induction on `lo`. |
| Bits.OrDisjoint | rgb565.go:91 | `x \| y` is `x + y` when `x` is a multiple of 2^k and `y < 2^k`, so no bits overlap. |
| Bits.OrDisjointLow | rgb565.go:51 | The same as OrDisjoint with the low operand first. This is the form `binary.LittleEndian.Uint16` needs. |
| Rgb565.Pack | rgb565.go:84-92 | Reference definition of what the colour model computes, in plain arithmetic. A packed colour is returned as it is. Any other colour keeps the top 5, 6 and 5 bits of the low bytes of red, green and blue, and drops alpha. ToColor is proved equal to it. |
| Rgb565.RedField | rgb565.go:71 | The red field of a packed colour read as arithmetic, bits 15-11: `c / 2048`, below 32. |
| Rgb565.GreenField | rgb565.go:72 | The green field, bits 10-5: `c / 32 % 64`, below 64. |
| Rgb565.BlueField | rgb565.go:73 | The blue field, bits 4-0: `c % 32`, below 32. |
| Rgb565.Expand | rgb565.go:75-77 | A definition: the integer stand-in `(2*n*255 + max) / (2*max)` for `math.Round(float64(f)*255/max)`. ExpandIsNearest states that it is the exact quotient rounded to nearest, and ExpandToByte bounds it. |
| Rgb565.Unpack | rgb565.go:70-82 | Reference definition of what `RGBA` computes, in plain arithmetic. Each field is scaled to 8 bits with rounding and put in the high byte of its channel, and alpha is 0xffff. Rgba is proved equal to it. |
| Rgb565.ToColor | rgb565.go:84-92 | The colour model's conversion, written with the source's type switch, masks and shifts, equals Pack for every input. A packed colour comes back unchanged. Any other colour gives `(r%256/8)*2048 + (g%256/4)*32 + b%256/8`, and the result always fits in 16 bits. |
| Rgb565.PackMasksMeaning | rgb565.go:89-91 | The source's expression `(r<<8)&0xF800 \| (g<<3)&0x07E0 \| (b>>3)&0x001F` equals Pack of the generic colour, for all 16-bit channels. |
| Rgb565.OrFields | rgb565.go:91 | Or-ing a red field shifted by 11, a green field shifted by 5 and a blue field adds them. |
| Rgb565.PackIdempotent | rgb565.go:85-87 | Packing the result of a packing again changes nothing. |
| Rgb565.PackIgnoresAlpha | rgb565.go:89 | The alpha channel has no effect on the packed value. |
| Rgb565.PackFields | rgb565.go:89-91 | The red, green and blue fields of a packed generic colour are `r%256/8`, `g%256/4` and `b%256/8`. These are the truncated top bits of each channel's low byte. |
| Rgb565.PackReadsLowByte | rgb565.go:89-91 | Two generic colours whose channels agree in their low bytes pack to the same value, whatever their high bytes. |
| Rgb565.PackUnpackedChannelsIsBlack | rgb565.go:70-91 | Feeding the channels of an unpacked colour back as a generic colour packs to 0 for every packed value. The low bytes are zero, and only the packed-colour branch of the type switch preserves a colour. |
| Rgb565.Rgba | rgb565.go:70-82 | The source's RGBA method equals Unpack for every packed colour. Each field is extracted with the mask and shift of lines 71-73, rounded to 8 bits and shifted left by 8. Alpha is 0xffff. |
| Rgb565.UnpackMasksMeaning | rgb565.go:71-73 | The masks and shifts of RGBA yield the red (bits 15-11), green (10-5) and blue (4-0) fields. |
| Rgb565.ExpandToHighByte | rgb565.go:75-77 | One channel of RGBA, `uint32(round(f*255/max)) << 8`, equals the rounded value times 256 and fits in 32 bits. |
| Rgb565.ExpandIsNearest | rgb565.go:75-77 | For odd `max`, the exact quotient `n*255/max` lies strictly within one half of the integer formula `(2*n*255 + max) / (2*max)`, and at least `1/(2*max)` away from either half-way point. So the formula is the exact quotient rounded to nearest, and there is never a tie. The float64 quotient is not part of the statement. |
| Rgb565.ExpandToByte | rgb565.go:75-77 | A field of 0..max expands to at most 255. Level 0 maps to 0 and level max maps to 255. |
| Rgb565.ChannelBounds | rgb565.go:75-77 | An expanded channel shifted by 8 is at most 0xff00 and has a zero low byte. |
| Rgb565.UnpackBounds | rgb565.go:70-81 | Every unpacked channel is at most 0xff00 with a zero low byte, and alpha is 0xffff. |
| Rgb565.UnpackEndpoints | rgb565.go:70-81 | 0x0000 unpacks to zero channels, and 0xFFFF unpacks to 0xff00 in every channel. |
| Rgb565.LittleEndianUint16 | rgb565.go:51 | Reading two bytes little-endian gives `b0 + 256*b1`. |
| Rgb565.LowByte | rgb565.go:63 | The first byte `binary.LittleEndian.PutUint16` stores, `byte(v)`: the value modulo 256. |
| Rgb565.HighByte | rgb565.go:63 | The second byte `PutUint16` stores, `byte(v >> 8)`. For a 16-bit value it equals `v / 256`, so the byte conversion drops nothing. |
| Rgb565.PutUint16 | rgb565.go:63 | `binary.LittleEndian.PutUint16` on two bytes of the buffer. Exactly those two bytes change, to `byte(v)` and `byte(v>>8)`, and they read back little-endian as `v`. |
| Rgb565.LittleEndianRoundTrip | rgb565.go:51-63 | Storing a 16-bit value as `byte(v)`, `byte(v>>8)` and reading it back gives the value. |
| Rgb565.Point.In | rgb565.go:45 | `image.Point.In`: the point lies in the half-open rectangle, `Min <= p < Max` in both coordinates. A rectangle that contains a point has positive width and height. |
| Rgb565.Rectangle.Dx | rgb565.go:34-35 | `image.Rectangle.Dx`, `Max.X - Min.X`. It is negative exactly when Max lies left of Min. |
| Rgb565.Rectangle.Dy | rgb565.go:34 | `image.Rectangle.Dy`, `Max.Y - Min.Y`. It is negative exactly when Max lies above Min. |
| Rgb565.SlotInBounds | rgb565.go:54-56 | A pixel `dx` columns and `dy` rows into a w-by-h grid starts at an even offset, and its two bytes lie inside the `2*w*h`-byte buffer. |
| Rgb565.SlotsApart | rgb565.go:54-56 | The two-byte slots of different pixels do not overlap. |
| Rgb565.Image.Valid | rgb565.go:16-21 | The layout invariant of the image: the stride is `2*Dx` bytes and the buffer holds `Stride*Dy` bytes, as NewRGB565 sets up at rgb565.go:34-35. The constructor establishes it, Set keeps it, and At and PixOffset rely on it. It is a predicate with no contract of its own. |
| Rgb565.Image.constructor | rgb565.go:31-38 | NewRGB565 for every rectangle whose length `2*Dx*Dy` is not negative, which is when Go's `make` does not panic. The new image has bounds `r`, stride `2*Dx` and a fresh buffer of `2*Dx*Dy` zero bytes. It satisfies the layout invariant, and At is 0 at every point. |
| Rgb565.Image.Bounds | rgb565.go:40-42 | Returns the image's rectangle unchanged. For a valid image the buffer holds `2*Dx*Dy` bytes. |
| Rgb565.Image.ColorModel | rgb565.go:66-68 | The colour model converts every colour as Pack does. |
| Rgb565.Image.PixOffset | rgb565.go:54-56 | For a valid image and an in-bounds point, the offset is even and leaves room for two bytes in the buffer. |
| Rgb565.Image.SlotsDisjoint | rgb565.go:54-56 | Different in-bounds pixels own disjoint pairs of bytes. |
| Rgb565.Image.At | rgb565.go:44-52 | Returns 0 outside the bounds. Inside, it returns `pix[i] + 256*pix[i+1]` at `i = PixOffset(x, y)`, with the low byte first. |
| Rgb565.Image.Set | rgb565.go:58-64 | Outside the bounds the buffer is unchanged. Inside, exactly the two bytes at PixOffset change, to the low and high bytes of Pack(c). A following At at that point returns Pack(c), every other pixel reads as before, and the invariant is kept. |
| Rgb565Test.Widen | rgb565_test.go:28 | The channels a `color.RGBA` value reports to the colour model: each byte copied into both bytes of its 16-bit channel, so both the high and the low byte of each channel equal the original byte. |
| Rgb565Test.Narrow | rgb565_test.go:38 | `color.RGBAModel.Convert` of a colour: the high byte of each reported channel. This is a definition; NarrowUnpack states what it gives on unpacked colours. |
| Rgb565Test.WidenPack | rgb565_test.go:26-33 | An 8-bit colour, widened as `color.RGBA` widens its bytes, packs to `(R/8)*2048 + (G/4)*32 + B/8`. |
| Rgb565Test.PackEndpoints | rgb565_test.go:14-23 | Black packs to 0x0000 and white to 0xFFFF, whatever the alpha. |
| Rgb565Test.ChannelRoundTrip | rgb565_test.go:36-44 | An expanded field survives narrowing to its high byte, and truncating it back (by 8 or by 4) gives the field. |
| Rgb565Test.NarrowUnpack | rgb565_test.go:36-44 | Narrowing an unpacked colour to 8 bits per channel gives the three rounded fields with alpha 0xff. |
| Rgb565Test.FieldsCompose | rgb565.go:70-73 | A packed colour equals its red, green and blue fields put side by side. |
| Rgb565Test.PackNarrowUnpack | rgb565_test.go:26-44 | For every 16-bit value, unpack it, keep each channel's high byte, widen it and pack it: the result is the value itself. |
| Rgb565Test.RoundTrip | rgb565_test.go:26-44 | The same round trip through the source's own RGBA and conversion expressions gives the value back, for every packed colour. |
| Rgb565Test.RoundTripStable | rgb565_test.go:26-44 | After one round trip through the packed form, a further round trip leaves the 8-bit colour unchanged. |
| Rgb565Test.PackRow1 | rgb565_test.go:14 | (0x00, 0x00, 0x00, 0xff) packs to 0x0000. |
| Rgb565Test.PackRow2 | rgb565_test.go:15 | (0x84, 0x00, 0x00, 0xff) packs to 0x8000. |
| Rgb565Test.PackRow3 | rgb565_test.go:16 | (0x00, 0x82, 0x00, 0xff) packs to 0x0400. |
| Rgb565Test.PackRow4 | rgb565_test.go:17 | (0x00, 0x00, 0x84, 0xff) packs to 0x0010. |
| Rgb565Test.PackRow5 | rgb565_test.go:18 | (0x00, 0x2d, 0x84, 0xff) packs to 0x0170. |
| Rgb565Test.PackRow6 | rgb565_test.go:19 | (0x84, 0x2d, 0x84, 0xff) packs to 0x8170. |
| Rgb565Test.PackRow7 | rgb565_test.go:20 | (0x84, 0xff, 0xff, 0xff) packs to 0x87ff. |
| Rgb565Test.PackRow8 | rgb565_test.go:21 | (0x84, 0x82, 0xff, 0xff) packs to 0x841f. |
| Rgb565Test.PackRow9 | rgb565_test.go:22 | (0x84, 0x82, 0x84, 0xff) packs to 0x8410. |
| Rgb565Test.PackRow10 | rgb565_test.go:23 | (0xff, 0xff, 0xff, 0xff) packs to 0xFFFF. |
| Rgb565Test.UnpackRow1 | rgb565_test.go:14 | 0x0000 unpacks to (0x00, 0x00, 0x00, 0xff). |
| Rgb565Test.UnpackRow2 | rgb565_test.go:15 | 0x8000 unpacks to (0x84, 0x00, 0x00, 0xff). |
| Rgb565Test.UnpackRow3 | rgb565_test.go:16 | 0x0400 unpacks to (0x00, 0x82, 0x00, 0xff). |
| Rgb565Test.UnpackRow4 | rgb565_test.go:17 | 0x0010 unpacks to (0x00, 0x00, 0x84, 0xff). |
| Rgb565Test.UnpackRow5 | rgb565_test.go:18 | 0x0170 unpacks to (0x00, 0x2d, 0x84, 0xff). |
| Rgb565Test.UnpackRow6 | rgb565_test.go:19 | 0x8170 unpacks to (0x84, 0x2d, 0x84, 0xff). |
| Rgb565Test.UnpackRow7 | rgb565_test.go:20 | 0x87ff unpacks to (0x84, 0xff, 0xff, 0xff). |
| Rgb565Test.UnpackRow8 | rgb565_test.go:21 | 0x841f unpacks to (0x84, 0x82, 0xff, 0xff). |
| Rgb565Test.UnpackRow9 | rgb565_test.go:22 | 0x8410 unpacks to (0x84, 0x82, 0x84, 0xff). |
| Rgb565Test.UnpackRow10 | rgb565_test.go:23 | 0xFFFF unpacks to (0xff, 0xff, 0xff, 0xff). |
| Rgb565Test.PackTruncates | rgb565.go:91 | (7, 0, 0, 0xff) packs to 0. The conversion truncates rather than rounds, and rounding 7*31/255 would give 1. |

## Left out

- Go's `image.Image`, `color.Color` and `color.Model` interfaces, `color.ModelFunc` and the `Model` global (rgb565.go:25-26) are not modelled as such. A colour is an `InputColor`, and `Image.ColorModel` returns the conversion as a function value.
- Rgb565.ExpandIsNearest: `math.Round(float64(f)*255/max)` and float64 arithmetic are replaced by the exact integer rounding formula. `ExpandIsNearest` proves only that the formula rounds the exact quotient `f*255/max` to nearest, with a margin of at least `1/(2*max)` from either half-way point. That the float64 quotient rounds the same way is argued, not proved: `f*255` is exact in float64, and the division is correctly rounded, so its error of at most `2^-53` relative lies far inside that margin.
- `encoding/binary` is written out inline: `LittleEndianUint16`, `LowByte` and `HighByte`.
- `color.RGBA.RGBA` and `color.RGBAModel.Convert` come from Go's standard library and are used only by the tests. They are modelled only by their effect on channels (`Widen`, `Narrow`); premultiplied alpha is not modelled.
- The `Other` channels are 16-bit values. The interface that `RGBA()` implements promises at most 0xffff in each 32-bit word, so `r<<8` cannot overflow 32 bits, and the masks keep the result within 16 bits before the `Color(...)` conversion.
- Rgb565.Image.constructor: a rectangle with `2*Dx*Dy < 0` is refused by a `requires`. For such a rectangle Go's `make` panics, and the panic is not modelled. Every other rectangle is accepted. When `Max` lies below `Min` in both coordinates, or `Dx*Dy` is 0, the image gets a buffer but contains no point, so `At` returns 0 and `Set` does nothing.
- Go `int` overflow in `2*Dx*Dy` and in the offset arithmetic is not modelled, because integers here are unbounded.
- Other code can reassign the exported `Pix`, `Stride` and `Rect` fields, or alias `Pix` with another slice, and in this model a client can assign `pix`, `stride` and `rect` just as freely. Clients are assumed to keep `Valid()`: `At` and `Set` require it, and without it the Go code could index out of range. Aliasing `pix` with another image's buffer is not modelled.
- The test harness itself (`t.Errorf`, iteration over the table) is not modelled. Each row of the table is a pair of lemmas instead.
