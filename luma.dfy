/** `rgbToBrightness` and the signed byte the HAL remembers brightness in.

    Colours are `uint32_t` values. The bit operations of the source are
    written as the arithmetic they amount to on unsigned values:
    `x & 0x00ffffff` is `x % 0x100_0000`, `(x >> 16) & 0xff` is
    `(x / 0x1_0000) % 0x100`, and `s >> 8` is `s / 0x100`. */
module Luma {

  newtype uint32 = x: int | 0 <= x < 0x1_0000_0000

  /** `(color >> 16) & 0xff`. */
  function Red(color: uint32): (r: int)
    ensures 0 <= r <= 255
  {
    (color as int / 0x1_0000) % 0x100
  }

  /** `(color >> 8) & 0xff`. */
  function Green(color: uint32): (g: int)
    ensures 0 <= g <= 255
  {
    (color as int / 0x100) % 0x100
  }

  /** `color & 0xff`. */
  function Blue(color: uint32): (b: int)
    ensures 0 <= b <= 255
  {
    color as int % 0x100
  }

  /** `77 * R + 150 * G + 29 * B` in `uint32_t` arithmetic. The weights sum to
      256, so for 8-bit channels the sum stays far below 2^32 and never wraps. */
  function WeightedSum(r: int, g: int, b: int): (s: int)
    requires 0 <= r <= 255 && 0 <= g <= 255 && 0 <= b <= 255
    ensures 0 <= s <= 255 * 256 < 0x1_0000_0000
  {
    77 * r + 150 * g + 29 * b
  }

  /** `rgbToBrightness`: mask off the alpha byte, split the colour into red,
      green and blue, and shift the weighted sum right by 8 bits. */
  function RgbToBrightness(argb: uint32): (brightness: int)
    ensures 0 <= brightness <= 255
  {
    var color := argb % 0x100_0000;
    WeightedSum(Red(color), Green(color), Blue(color)) / 0x100
  }

  /** Two colours that agree on their red, green and blue bytes have the
      same brightness, whatever their alpha bytes. */
  lemma AlphaIgnored(c1: uint32, c2: uint32)
    requires c1 % 0x100_0000 == c2 % 0x100_0000
    ensures RgbToBrightness(c1) == RgbToBrightness(c2)
  {
  }

  /** The brightness of a colour is that of its low 24 bits. */
  lemma MaskIgnored(c: uint32)
    ensures RgbToBrightness(c) == RgbToBrightness(c % 0x100_0000)
  {
    var low := c as int % 0x100_0000;
    assert low % 0x100_0000 == low;
    AlphaIgnored(c, low as uint32);
  }

  /** White is full brightness, whatever the alpha byte; black is zero. */
  lemma WhiteAndBlack()
    ensures RgbToBrightness(0xff_ffff) == 255 && RgbToBrightness(0xffff_ffff) == 255
    ensures RgbToBrightness(0x00_0000) == 0 && RgbToBrightness(0xff00_0000) == 0
  {
    assert (0xffff_ffff as uint32) % 0x100_0000 == 0xff_ffff;
    assert (0xff00_0000 as uint32) % 0x100_0000 == 0;
    assert Red(0xff_ffff) == 255 && Green(0xff_ffff) == 255 && Blue(0xff_ffff) == 255;
  }

  /** A full primary gives 255 times its weight, shifted right by 8: the
      products 19635, 38250 and 7395 truncate to 76, 149 and 28. */
  lemma Primaries()
    ensures RgbToBrightness(0xff_0000) == 76
    ensures RgbToBrightness(0x00_ff00) == 149
    ensures RgbToBrightness(0x00_00ff) == 28
  {
    assert (0xff_0000 as uint32) % 0x100_0000 == 0xff_0000;
    assert Red(0xff_0000) == 255 && Green(0xff_0000) == 0 && Blue(0xff_0000) == 0;
    assert WeightedSum(255, 0, 0) == 19635;
    assert (0x00_ff00 as uint32) % 0x100_0000 == 0x00_ff00;
    assert Red(0x00_ff00) == 0 && Green(0x00_ff00) == 255 && Blue(0x00_ff00) == 0;
    assert WeightedSum(0, 255, 0) == 38250;
    assert (0x00_00ff as uint32) % 0x100_0000 == 0x00_00ff;
    assert Red(0x00_00ff) == 0 && Green(0x00_00ff) == 0 && Blue(0x00_00ff) == 255;
    assert WeightedSum(0, 0, 255) == 7395;
  }

  /** A grey `0xvvvvvv` has brightness `v`. */
  lemma {:induction false} GreyIsItsLevel(v: int)
    requires 0 <= v <= 255
    ensures RgbToBrightness((v * 0x1_0101) as uint32) == v
  {
    var c := (v * 0x1_0101) as uint32;
    assert c % 0x100_0000 == c;
    assert Red(c) == v by {
      assert c as int == v * 0x1_0000 + v * 0x101 && v * 0x101 < 0x1_0000;
    }
    assert Green(c) == v by {
      assert c as int == (v * 0x101) * 0x100 + v;
      assert c as int / 0x100 == v * 0x100 + v;
    }
    assert Blue(c) == v by {
      assert c as int == (v * 0x101) * 0x100 + v;
    }
    assert WeightedSum(v, v, v) == v * 0x100;
  }

  /** The type of `mLedBrightness`. */
  newtype int8 = x: int | -128 <= x < 128

  /** Storing an unsigned brightness into `int8_t`: the value modulo 256,
      taken into -128..127. */
  function ToInt8(b: int): (v: int8)
    ensures (v as int - b) % 256 == 0
    ensures 0 <= b < 128 ==> v as int == b
    ensures 128 <= b < 256 ==> v as int == b - 256
  {
    var low := b % 256;
    if low < 128 then low as int8 else (low - 256) as int8
  }

  /** A brightness stored in the signed byte reads back as zero exactly when
      it was zero. */
  lemma StoredZeroIffZero(b: int)
    requires 0 <= b <= 255
    ensures (ToInt8(b) == 0) <==> (b == 0)
  {
  }
}
