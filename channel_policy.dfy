/** The channel policies of the integer colour types: the hue setters of the
    32-scale types store `(short)(value % 360)`, their saturation, lightness
    and value setters store `(byte)Math.Clamp(value, 0, 100)`, and the `int`
    setters of Color32 and of the 24-bit types store
    `(byte)Math.Clamp(value, 0, 255)`. */
module ChannelPolicy {
  import opened CSharpInt

  /** h is what C#'s `value % 360` gives: congruent to value modulo 360,
      strictly inside (-360, 360), and never of the opposite sign. */
  predicate IsWrappedHue(value: int, h: int)
  {
    && -360 < h < 360
    && (value - h) % 360 == 0
    && (value > 0 ==> h >= 0)
    && (value < 0 ==> h <= 0)
  }

  /** The body of every H and H32 setter of Hsl32Color and Hsv32Color. */
  function WrapHue(value: int): (h: Short)
    ensures IsWrappedHue(value, h)
    ensures value >= 0 ==> 0 <= h < 360
    ensures -360 < value < 360 ==> h == value
  {
    var rem := TruncRem(value, 360);
    assert value - rem == TruncDiv(value, 360) * 360;
    ToShort(rem)
  }

  /** IsWrappedHue pins down one hue: the description of WrapHue is complete. */
  lemma WrappedHueUnique(value: int, h1: int, h2: int)
    requires IsWrappedHue(value, h1) && IsWrappedHue(value, h2)
    ensures h1 == h2
  {
    var k := (h1 - h2) / 360;
    assert h1 - h2 == (value - h2) - (value - h1);
    assert (h1 - h2) % 360 == 0;
    assert h1 - h2 == k * 360;
    if value == 0 {
      assert h1 == 0 && h2 == 0;
    } else {
      assert -360 < h1 - h2 < 360;
      assert k == 0;
    }
  }

  /** The body of the S, L and V setters of the 32-scale types. */
  function ClampPercent(value: int): (p: Byte)
    ensures p <= 100
    ensures 0 <= value <= 100 ==> p == value
    ensures value < 0 ==> p == 0
    ensures 100 < value ==> p == 100
  {
    Clamp(value, 0, 100)
  }

  /** The body of the `int` setters of Color32, HSL24Color and HSV24Color. */
  function ClampByte(value: int): (b: Byte)
    ensures 0 <= value <= 255 ==> b == value
    ensures value < 0 ==> b == 0
    ensures 255 < value ==> b == 255
  {
    Clamp(value, 0, 255)
  }
}
