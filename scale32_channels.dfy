/** The per-channel arithmetic that Hsl32Color and Hsv32Color share. Every
    operator writes a channel with a compound assignment on a property, which
    C# evaluates in two steps: the arithmetic result is first narrowed to the
    property's type (`short` for H, `byte` for S, L and V, unchecked `int`
    for H32, S32, L32 and V32), and only then does the setter wrap the hue
    or clamp the percentage. The functions below are those two steps
    composed; their contracts spell out what the narrowing does to the
    familiar "wrap mod 360" and "clamp to [0,100]" behaviour. */
module Scale32Channels {
  import opened CSharpInt
  import opened ChannelPolicy

  /** `H op= y` with a short operand: `(short)(h op y)`, then `% 360`. */
  function HueAfter(x: int): (h: Short)
    ensures IsWrappedHue(ToShort(x), h)
    ensures -0x8000 <= x < 0x8000 ==> IsWrappedHue(x, h)
  {
    WrapHue(ToShort(x))
  }

  /** `S op= y` with a byte operand: `(byte)(s op y)`, then the clamp. A
      small negative result wraps to a large byte and so clamps to 100, and
      a result just past 255 wraps back to a small one. */
  function PercentAfter(x: int): (p: Byte)
    ensures p <= 100
    ensures 0 <= x <= 100 ==> p == x
    ensures 100 < x < 0x100 ==> p == 100
    ensures -156 <= x < 0 ==> p == 100
    ensures 0x100 <= x <= 0x100 + 100 ==> p == x - 0x100
  {
    ClampPercent(ToByte(x))
  }

  /** `H32 op= y`: unchecked `int` arithmetic, then `% 360`. */
  function HueAfterInt(x: int): (h: Short)
    ensures IsWrappedHue(ToInt32(x), h)
    ensures -0x8000_0000 <= x < 0x8000_0000 ==> IsWrappedHue(x, h)
  {
    WrapHue(ToInt32(x))
  }

  /** `S32 op= y`: unchecked `int` arithmetic, then the clamp. */
  function PercentAfterInt(x: int): (p: Byte)
    ensures p <= 100
    ensures -0x8000_0000 <= x < 0x8000_0000 ==> p == Clamp(x, 0, 100)
  {
    ClampPercent(ToInt32(x))
  }

  /** The hue `Difference` writes: `H = (byte)Math.Abs(h - h')`, so the
      distance is kept modulo 256 and the hue setter then leaves it alone. */
  function HueDistance(h1: Short, h2: Short): (d: Short)
    ensures d == Abs(h1 - h2) % 0x100
    ensures Abs(h1 - h2) < 0x100 ==> d == Abs(h1 - h2)
  {
    WrapHue(ToByte(Abs(h1 - h2)))
  }

  /** The percentage `Difference` writes: the distance, clamped to 100. */
  function PercentDistance(p1: Byte, p2: Byte): (d: Byte)
    ensures d == Smaller(Abs(p1 - p2), 100)
  {
    ClampPercent(ToByte(Abs(p1 - p2)))
  }

  /** Unary minus writes `h = (short)(360 - h)` directly, bypassing the
      setter; a hue of 0 becomes 360. */
  function NegatedHue(h: Short): (n: Short)
    ensures 360 - 0x8000 < h ==> n == 360 - h
  {
    ToShort(360 - h)
  }

  /** Unary minus writes `s = (byte)(100 - s)` directly. */
  function NegatedPercent(p: Byte): (n: Byte)
    ensures p <= 100 ==> n == 100 - p
  {
    ToByte(100 - p)
  }

  /** Negating a hue twice gives it back, including hues the wrap-around of
      the short cast moved. */
  lemma NegatedHueInvolution(h: Short)
    ensures NegatedHue(NegatedHue(h)) == h
  {
    var n := NegatedHue(h);
    assert (360 - h - n) % 0x1_0000 == 0;
    ToShortCongruent(360 - n as int, h);
  }

  /** Negating a percentage twice gives it back, for every byte. */
  lemma NegatedPercentInvolution(p: Byte)
    ensures NegatedPercent(NegatedPercent(p)) == p
  {
    var n := NegatedPercent(p);
    assert (100 - p - n) % 0x100 == 0;
    ToByteCongruent(100 - n as int, p);
  }

  /** The narrowing casts at work on concrete values: 200 * 200 overflows a
      short, so its hue is not 40000 % 360; 16% * 16% wraps to 0%; 10% - 20%
      underflows to 100%. */
  lemma NarrowingExamples()
    ensures WrapHue(200 * 200) == 40
    ensures HueAfter(200 * 200) == -336
    ensures PercentAfter(16 * 16) == 0
    ensures PercentAfter(10 - 20) == 100
  {
    assert IsWrappedHue(40000, 40);
    WrappedHueUnique(40000, WrapHue(40000), 40);
    assert ToShort(40000) == -25536;
    assert IsWrappedHue(-25536, -336);
    WrappedHueUnique(-25536, HueAfter(40000), -336);
  }
}
