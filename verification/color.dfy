/** karm-gfx/color.h: an 8-bit RGBA colour, its packing from a hexadecimal
    `u32`, its conversion to and from `Vec4u` and integer alpha blending. */
module Colors {
  import opened Base
  import opened Vecs

  datatype Color = Color(red: Byte, green: Byte, blue: Byte, alpha: Byte)

  /** `static_cast<u8>`: keeps the low 8 bits. */
  function ToU8(x: int): (r: Byte)
    ensures 0 <= x < U8_LIMIT ==> r == x
  {
    x % U8_LIMIT
  }

  /** Initialisation of a `u16`: keeps the low 16 bits. */
  function ToU16(x: int): (r: U16)
    ensures 0 <= x < U16_LIMIT ==> r == x
  {
    x % U16_LIMIT
  }

  /** `fromHex(hex)`: bits 16-23 are red, 8-15 green, 0-7 blue; the colour is opaque. */
  function FromHex(hex: U32): (c: Color)
    ensures c.alpha == 255
    ensures hex % 0x100_0000 == c.red * 0x1_0000 + c.green * 0x100 + c.blue
  {
    HexDigits(hex);
    Color(ToU8((hex / 0x1_0000) % 0x100), ToU8((hex / 0x100) % 0x100), ToU8(hex % 0x100), ToU8(0xFF))
  }

  lemma HexDigits(hex: nat)
    ensures hex % 0x100_0000 == ((hex / 0x1_0000) % 0x100) * 0x1_0000 + ((hex / 0x100) % 0x100) * 0x100 + hex % 0x100
  {
    var b, g, r := hex % 0x100, (hex / 0x100) % 0x100, (hex / 0x1_0000) % 0x100;
    var q1 := hex / 0x100;
    var q2 := q1 / 0x100;
    assert hex == q1 * 0x100 + b;
    assert q1 == q2 * 0x100 + g;
    assert q2 == (q2 / 0x100) * 0x100 + r;
    assert q2 == hex / 0x1_0000;
    var top := q2 / 0x100;
    assert hex == top * 0x100_0000 + (r * 0x1_0000 + g * 0x100 + b);
    ModUnique(hex, top, 0x100_0000, r * 0x1_0000 + g * 0x100 + b);
  }

  /** Packing three channels as `0xRRGGBB` and unpacking with `fromHex` gives
      the opaque colour back; the top byte of the hex value is ignored. */
  lemma {:induction false} FromHexRoundTrip(c: Color, top: Byte)
    requires c.alpha == 255
    ensures FromHex(top * 0x100_0000 + c.red * 0x1_0000 + c.green * 0x100 + c.blue) == c
  {
    var hex := top * 0x100_0000 + c.red * 0x1_0000 + c.green * 0x100 + c.blue;
    var low := c.red * 0x1_0000 + c.green * 0x100 + c.blue;
    ModUnique(hex, top, 0x100_0000, low);
    var h := FromHex(hex);
    assert h.red * 0x1_0000 + h.green * 0x100 + h.blue == low;
    ModUnique(low, c.red * 0x100 + c.green, 0x100, c.blue);
    ModUnique(low, h.red * 0x100 + h.green, 0x100, h.blue);
    var mid := c.red * 0x100 + c.green;
    var mid' := h.red * 0x100 + h.green;
    assert mid * 0x100 == mid' * 0x100;
    ModUnique(mid, c.red, 0x100, c.green);
    ModUnique(mid, h.red, 0x100, h.green);
    assert h.red == c.red by {
      assert (h.red - c.red) * 0x100 == 0;
    }
  }

  /** `fromRgb`: the channels given, fully opaque. */
  function FromRgb(red: Byte, green: Byte, blue: Byte): (c: Color)
    ensures c.alpha == 255
    ensures c.red == red && c.green == green && c.blue == blue
  {
    Color(red, green, blue, 255)
  }

  /** `fromRgba`: all four channels given. */
  function FromRgba(red: Byte, green: Byte, blue: Byte, alpha: Byte): (c: Color)
    ensures c.red == red && c.green == green && c.blue == blue && c.alpha == alpha
  {
    Color(red, green, blue, alpha)
  }

  /** `Color()`: every channel 0, so fully transparent black. */
  const Default: Color := Color(0, 0, 0, 0)

  /** `operator Vec4u()`: each channel widened. */
  function ToVec4u(c: Color): (v: Vec4)
    ensures 0 <= v.x < U8_LIMIT && 0 <= v.y < U8_LIMIT && 0 <= v.z < U8_LIMIT && 0 <= v.w < U8_LIMIT
  {
    Vec4(c.red, c.green, c.blue, c.alpha)
  }

  /** `Color(Vec4u)`: each `usize` component narrowed to its low 8 bits. */
  function FromVec4u(v: Vec4): (c: Color)
    requires 0 <= v.x < U64_LIMIT && 0 <= v.y < U64_LIMIT && 0 <= v.z < U64_LIMIT && 0 <= v.w < U64_LIMIT
    ensures c.red == v.x % U8_LIMIT && c.green == v.y % U8_LIMIT
    ensures c.blue == v.z % U8_LIMIT && c.alpha == v.w % U8_LIMIT
  {
    Color(ToU8(v.x), ToU8(v.y), ToU8(v.z), ToU8(v.w))
  }

  /** Converting to `Vec4u` and back is the identity; the other way round it
      is the identity exactly on vectors whose components fit a byte. */
  lemma Vec4uRoundTrip(c: Color, v: Vec4)
    requires 0 <= v.x < U64_LIMIT && 0 <= v.y < U64_LIMIT && 0 <= v.z < U64_LIMIT && 0 <= v.w < U64_LIMIT
    ensures FromVec4u(ToVec4u(c)) == c
    ensures ToVec4u(FromVec4u(v)) == v <==> v.x < U8_LIMIT && v.y < U8_LIMIT && v.z < U8_LIMIT && v.w < U8_LIMIT
  {
  }

  /** The channel numerator over an opaque background, kept in `u32` by C++. */
  function OpaqueNumerator(back: Byte, fore: Byte, a: Byte): int
  {
    back * 255 * (255 - a) + 255 * a * fore
  }

  /** `d`, the scaled alpha of the blend, before it is stored in a `u16`. */
  function Coverage(backAlpha: Byte, a: Byte): int
  {
    255 * (backAlpha + a) - backAlpha * a
  }

  /** The channel numerator over a translucent background. */
  function Numerator(back: Byte, backAlpha: Byte, fore: Byte, a: Byte): int
  {
    back * backAlpha * (255 - a) + 255 * a * fore
  }

  /** `blendOver(background)`: source-over compositing of this colour onto
      the background, in integer arithmetic with the casts of the source. */
  function BlendOver(fore: Color, back: Color): (r: Color)
  {
    var a := fore.alpha;
    if a == 0xFF then fore
    else if a == 0 then back
    else if back.alpha == 255 then
      Color(ToU8(OpaqueNumerator(back.red, fore.red, a) / 65025),
            ToU8(OpaqueNumerator(back.green, fore.green, a) / 65025),
            ToU8(OpaqueNumerator(back.blue, fore.blue, a) / 65025),
            ToU8(255))
    else
      CoverageBounds(back.alpha, a);
      var d := ToU16(Coverage(back.alpha, a));
      Color(ToU8(Numerator(back.red, back.alpha, fore.red, a) / d),
            ToU8(Numerator(back.green, back.alpha, fore.green, a) / d),
            ToU8(Numerator(back.blue, back.alpha, fore.blue, a) / d),
            ToU8(d / 255))
  }

  lemma MulLe(a: int, b: int, c: int)
    requires 0 <= a <= b && 0 <= c
    ensures a * c <= b * c
  {
    assert b * c - a * c == (b - a) * c;
  }

  lemma MulLtCancel(a: int, b: int, c: int)
    requires c > 0 && a * c < b * c
    ensures a < b
  {
    assert (b - a) * c == b * c - a * c;
  }

  /** Bounds on a quotient from bounds on the dividend. */
  lemma DivBetween(n: int, m: int, lo: int, hi: int)
    requires m > 0 && lo * m <= n <= hi * m
    ensures lo <= n / m <= hi
  {
    var q, r := n / m, n % m;
    assert n == q * m + r && 0 <= r < m;
    assert n < (q + 1) * m;
    MulLtCancel(lo, q + 1, m);
    assert q * m < (hi + 1) * m;
    MulLtCancel(q, hi + 1, m);
  }

  /** With both alphas below 255 and the foreground's above 0, `d` is
      positive, fits a `u16` (it is at most 65024) and is at least `255` times either alpha. */
  lemma {:induction false} CoverageBounds(backAlpha: Byte, a: Byte)
    requires 0 < a < 255 && backAlpha < 255
    ensures 0 < Coverage(backAlpha, a) <= 65024 < U16_LIMIT
    ensures Coverage(backAlpha, a) >= 255 * backAlpha && Coverage(backAlpha, a) >= 255 * a
  {
    var d := Coverage(backAlpha, a);
    var m := backAlpha * a;
    var q, q' := a * (255 - backAlpha), backAlpha * (255 - a);
    assert q == 255 * a - m by { assert a * backAlpha == m; }
    assert q' == 255 * backAlpha - m;
    assert d == 255 * backAlpha + q && d == 255 * a + q';
    MulLe(1, a, 255 - backAlpha);
    MulLe(a, 254, 255 - backAlpha);
    MulLe(0, backAlpha, 255 - a);
  }

  /** The opaque-background numerator is a weighted sum of the two channels
      with weights summing to 65025, so the quotient lies between them. */
  lemma {:induction false} OpaqueChannelBetween(back: Byte, fore: Byte, a: Byte)
    ensures Base.Min(back, fore) <= OpaqueNumerator(back, fore, a) / 65025 <= Base.Max(back, fore)
  {
    var lo, hi := Base.Min(back, fore), Base.Max(back, fore);
    var n := OpaqueNumerator(back, fore, a);
    assert n == 255 * (back * (255 - a) + a * fore);
    MulLe(lo, back, 255 - a);
    MulLe(lo, fore, a);
    MulLe(back, hi, 255 - a);
    MulLe(fore, hi, a);
    assert lo * (255 - a) + lo * a == lo * 255;
    assert hi * (255 - a) + hi * a == hi * 255;
    assert lo * 65025 <= n <= hi * 65025;
    DivBetween(n, 65025, lo, hi);
  }

  /** Over a translucent background each channel numerator is at most `255 * d`. */
  lemma {:induction false} NumeratorBound(back: Byte, backAlpha: Byte, fore: Byte, a: Byte)
    requires 0 < a < 255 && backAlpha < 255
    ensures 0 <= Numerator(back, backAlpha, fore, a) <= 255 * Coverage(backAlpha, a)
    ensures 0 <= Numerator(back, backAlpha, fore, a) / Coverage(backAlpha, a) <= 255
  {
    var d := Coverage(backAlpha, a);
    CoverageBounds(backAlpha, a);
    var n := Numerator(back, backAlpha, fore, a);
    var p, q := backAlpha * (255 - a), 255 * a;
    assert 0 <= p by { MulLe(0, backAlpha, 255 - a); }
    assert d == p + q by { assert 255 * (backAlpha + a) == 255 * backAlpha + q; assert backAlpha * 255 - backAlpha * a == p; }
    assert n == back * p + fore * q by { assert back * backAlpha * (255 - a) == back * p; assert 255 * a * fore == fore * q; }
    MulLe(back, 255, p);
    MulLe(fore, 255, q);
    MulLe(0, back, p);
    MulLe(0, fore, q);
    DivBetween(n, d, 0, 255);
  }

  /** The result alpha `d / 255` is at least either input alpha. */
  lemma {:induction false} BlendAlphaGrows(backAlpha: Byte, a: Byte)
    requires 0 < a < 255 && backAlpha < 255
    ensures Coverage(backAlpha, a) / 255 >= backAlpha
    ensures Coverage(backAlpha, a) / 255 >= a
    ensures Coverage(backAlpha, a) / 255 < U8_LIMIT
  {
    var d := Coverage(backAlpha, a);
    CoverageBounds(backAlpha, a);
    DivBetween(d, 255, backAlpha, 255);
    DivBetween(d, 255, a, 255);
  }

  /** A fully opaque foreground hides the background. */
  lemma BlendOpaqueForeground(fore: Color, back: Color)
    requires fore.alpha == 255
    ensures BlendOver(fore, back) == fore
  {
  }

  /** A fully transparent foreground leaves the background. */
  lemma BlendTransparentForeground(fore: Color, back: Color)
    requires fore.alpha == 0
    ensures BlendOver(fore, back) == back
  {
  }

  /** Over an opaque background the result is opaque and each channel is the
      weighted average, within 0..255 and between the two input channels. */
  lemma BlendOverOpaqueBackground(fore: Color, back: Color)
    requires 0 < fore.alpha < 255 && back.alpha == 255
    ensures BlendOver(fore, back).alpha == 255
    ensures BlendOver(fore, back).red == OpaqueNumerator(back.red, fore.red, fore.alpha) / 65025
    ensures BlendOver(fore, back).green == OpaqueNumerator(back.green, fore.green, fore.alpha) / 65025
    ensures BlendOver(fore, back).blue == OpaqueNumerator(back.blue, fore.blue, fore.alpha) / 65025
    ensures Base.Min(back.red, fore.red) <= BlendOver(fore, back).red <= Base.Max(back.red, fore.red)
    ensures Base.Min(back.green, fore.green) <= BlendOver(fore, back).green <= Base.Max(back.green, fore.green)
    ensures Base.Min(back.blue, fore.blue) <= BlendOver(fore, back).blue <= Base.Max(back.blue, fore.blue)
  {
    OpaqueChannelBetween(back.red, fore.red, fore.alpha);
    OpaqueChannelBetween(back.green, fore.green, fore.alpha);
    OpaqueChannelBetween(back.blue, fore.blue, fore.alpha);
  }

  lemma BlendTranslucentShape(fore: Color, back: Color)
    requires 0 < fore.alpha < 255 && back.alpha < 255
    ensures 0 < Coverage(back.alpha, fore.alpha) < U16_LIMIT
    ensures var a, d := fore.alpha, Coverage(back.alpha, fore.alpha);
      BlendOver(fore, back) == Color(
        ToU8(Numerator(back.red, back.alpha, fore.red, a) / d),
        ToU8(Numerator(back.green, back.alpha, fore.green, a) / d),
        ToU8(Numerator(back.blue, back.alpha, fore.blue, a) / d),
        ToU8(d / 255))
  {
    CoverageBounds(back.alpha, fore.alpha);
  }

  /** Over a translucent background `d` needs no truncation, the result alpha
      is `d / 255` and at least either input alpha, and no channel quotient
      needs truncation either. */
  lemma BlendOverTranslucentBackground(fore: Color, back: Color)
    requires 0 < fore.alpha < 255 && back.alpha < 255
    ensures var d := Coverage(back.alpha, fore.alpha);
      && 0 < d < U16_LIMIT
      && BlendOver(fore, back).alpha == d / 255
      && BlendOver(fore, back).alpha >= back.alpha && BlendOver(fore, back).alpha >= fore.alpha
      && BlendOver(fore, back).red == Numerator(back.red, back.alpha, fore.red, fore.alpha) / d
      && BlendOver(fore, back).green == Numerator(back.green, back.alpha, fore.green, fore.alpha) / d
      && BlendOver(fore, back).blue == Numerator(back.blue, back.alpha, fore.blue, fore.alpha) / d
  {
    var a := fore.alpha;
    var d := Coverage(back.alpha, a);
    BlendTranslucentShape(fore, back);
    BlendAlphaGrows(back.alpha, a);
    NumeratorBound(back.red, back.alpha, fore.red, a);
    NumeratorBound(back.green, back.alpha, fore.green, a);
    NumeratorBound(back.blue, back.alpha, fore.blue, a);
  }
}
