/** Hsv32Color (ColourLib/Hsv32Color.cs): hue in degrees as a `short`,
    saturation and value as byte percentages. Every write except unary
    minus goes through a setter that wraps the hue with C#'s `% 360` and
    clamps the percentages to [0,100]. */
module Hsv32 {
  import opened CSharpInt
  import opened Results
  import opened ChannelPolicy
  import opened Scale32Channels

  datatype Hsv32Color = Hsv32Color(h: Short, s: Byte, v: Byte)

  /** What the setters store: a wrapped hue and two percentages. */
  predicate InPolicy(c: Hsv32Color)
  {
    -360 < c.h < 360 && c.s <= 100 && c.v <= 100
  }

  /** What the operations reach from colours in policy: unary minus, which
      bypasses the setters, moves the hue into (0, 720). */
  predicate Reachable(c: Hsv32Color)
  {
    -360 < c.h < 720 && c.s <= 100 && c.v <= 100
  }

  /** The channels in indexer order. */
  function Channels(c: Hsv32Color): seq<int>
  {
    [c.h, c.s, c.v]
  }

  // ---------------------------------------------------------------------
  // Setters and constructors

  /** `H` and `H32`: `h = (short)(value % 360)`. H's `short` argument is an
      `int` here, since both setters have the same body. */
  function SetH(c: Hsv32Color, value: Int32): (d: Hsv32Color)
    ensures IsWrappedHue(value, d.h)
    ensures d.s == c.s && d.v == c.v
  {
    c.(h := WrapHue(value))
  }

  /** `S` and `S32`: `s = (byte)Math.Clamp(value, 0, 100)`. */
  function SetS(c: Hsv32Color, value: Int32): (d: Hsv32Color)
    ensures d.s == Clamp(value, 0, 100)
    ensures d.h == c.h && d.v == c.v
  {
    c.(s := ClampPercent(value))
  }

  /** `V` and `V32`: `v = (byte)Math.Clamp(value, 0, 100)`. */
  function SetV(c: Hsv32Color, value: Int32): (d: Hsv32Color)
    ensures d.v == Clamp(value, 0, 100)
    ensures d.h == c.h && d.s == c.s
  {
    c.(v := ClampPercent(value))
  }

  /** `new Hsv32Color(short h, byte s, byte v)`: through H, S and V. */
  method FromShortAndBytes(h: Short, s: Byte, v: Byte) returns (c: Hsv32Color)
    ensures IsWrappedHue(h, c.h) && c.s == Clamp(s, 0, 100) && c.v == Clamp(v, 0, 100)
    ensures InPolicy(c)
  {
    c := Hsv32Color(0, 0, 0);
    c := SetH(c, h);
    c := SetS(c, s);
    c := SetV(c, v);
  }

  /** `new Hsv32Color(int h, int s, int v)`: through H32, S32 and V32. */
  method FromInts(h: Int32, s: Int32, v: Int32) returns (c: Hsv32Color)
    ensures IsWrappedHue(h, c.h) && c.s == Clamp(s, 0, 100) && c.v == Clamp(v, 0, 100)
    ensures InPolicy(c)
  {
    c := Hsv32Color(0, 0, 0);
    c := SetH(c, h);
    c := SetS(c, s);
    c := SetV(c, v);
  }

  // ---------------------------------------------------------------------
  // Indexer, Equals, Max, Min

  /** The indexer's getter: h, s, v for 0..2. */
  function Get(c: Hsv32Color, i: Int32): (r: Result<int>)
    ensures r.Ok? <==> 0 <= i < 3
    ensures r.Throws? ==> r.exception == IndexOutOfRange
    ensures r.Ok? ==> r.value == Channels(c)[i]
  {
    if i == 0 then Ok(c.h as int)
    else if i == 1 then Ok(c.s as int)
    else if i == 2 then Ok(c.v as int)
    else Throws(IndexOutOfRange)
  }

  /** The indexer's setter: writes channel i through H32, S32 or V32 and
      leaves the other two alone. */
  function Set(c: Hsv32Color, i: Int32, value: Int32): (r: Result<Hsv32Color>)
    ensures r.Ok? <==> 0 <= i < 3
    ensures r.Throws? ==> r.exception == IndexOutOfRange
    ensures r.Ok? && i == 0 ==> IsWrappedHue(value, r.value.h)
    ensures r.Ok? && i != 0 ==> Get(r.value, i) == Ok(Clamp(value, 0, 100))
    ensures r.Ok? ==> forall j: Int32 :: 0 <= j < 3 && j != i ==> Get(r.value, j) == Get(c, j)
    ensures r.Ok? && InPolicy(c) ==> InPolicy(r.value)
  {
    if i == 0 then Ok(SetH(c, value))
    else if i == 1 then Ok(SetS(c, value))
    else if i == 2 then Ok(SetV(c, value))
    else Throws(IndexOutOfRange)
  }

  function Equals(c: Hsv32Color, color: Hsv32Color): (eq: bool)
    ensures eq <==> c == color
  {
    c.h == color.h && c.s == color.s && c.v == color.v
  }

  /** `Max()`: the largest of the three channels, hue included. */
  function Max(c: Hsv32Color): (m: int)
    ensures m == c.h || m == c.s || m == c.v
    ensures c.h <= m && c.s <= m && c.v <= m
  {
    Larger(c.h, Larger(c.s, c.v))
  }

  /** `Min()`: the smallest of the three channels, hue included. */
  function Min(c: Hsv32Color): (m: int)
    ensures m == c.h || m == c.s || m == c.v
    ensures m <= c.h && m <= c.s && m <= c.v
  {
    Smaller(c.h, Smaller(c.s, c.v))
  }

  // ---------------------------------------------------------------------
  // What the operators compute, channel by channel

  /** `left + right`. */
  function Sum(a: Hsv32Color, b: Hsv32Color): (r: Hsv32Color)
    ensures InPolicy(r)
  {
    Hsv32Color(HueAfter(a.h + b.h), PercentAfter(a.s + b.s), PercentAfter(a.v + b.v))
  }

  /** `left - right`. */
  function Difference(a: Hsv32Color, b: Hsv32Color): (r: Hsv32Color)
    ensures InPolicy(r)
  {
    Hsv32Color(HueAfter(a.h - b.h), PercentAfter(a.s - b.s), PercentAfter(a.v - b.v))
  }

  /** `left * right`. */
  function Product(a: Hsv32Color, b: Hsv32Color): (r: Hsv32Color)
    ensures InPolicy(r)
  {
    Hsv32Color(HueAfter(a.h * b.h), PercentAfter(a.s * b.s), PercentAfter(a.v * b.v))
  }

  /** `left / right`: the first zero channel of right throws. */
  function Quotient(a: Hsv32Color, b: Hsv32Color): (r: Result<Hsv32Color>)
    ensures r.Ok? <==> b.h != 0 && b.s != 0 && b.v != 0
    ensures r.Throws? ==> r.exception == DivideByZero
    ensures r.Ok? ==> InPolicy(r.value)
  {
    if b.h == 0 || b.s == 0 || b.v == 0 then Throws(DivideByZero)
    else Ok(Hsv32Color(HueAfter(TruncDiv(a.h, b.h)), PercentAfter(TruncDiv(a.s, b.s)),
                       PercentAfter(TruncDiv(a.v, b.v))))
  }

  /** `left + n`, `left - n`, `left * n` with an `int` n, and `left / n`. */
  function SumInt(a: Hsv32Color, n: Int32): (r: Hsv32Color)
    ensures InPolicy(r)
  {
    Hsv32Color(HueAfterInt(a.h + n), PercentAfterInt(a.s + n), PercentAfterInt(a.v + n))
  }

  function DifferenceInt(a: Hsv32Color, n: Int32): (r: Hsv32Color)
    ensures InPolicy(r)
  {
    Hsv32Color(HueAfterInt(a.h - n), PercentAfterInt(a.s - n), PercentAfterInt(a.v - n))
  }

  function ProductInt(a: Hsv32Color, n: Int32): (r: Hsv32Color)
    ensures InPolicy(r)
  {
    Hsv32Color(HueAfterInt(a.h * n), PercentAfterInt(a.s * n), PercentAfterInt(a.v * n))
  }

  function QuotientInt(a: Hsv32Color, n: Int32): (r: Result<Hsv32Color>)
    ensures r.Ok? <==> n != 0
    ensures r.Throws? ==> r.exception == DivideByZero
    ensures r.Ok? ==> InPolicy(r.value)
  {
    if n == 0 then Throws(DivideByZero)
    else Ok(Hsv32Color(HueAfterInt(TruncDiv(a.h, n)), PercentAfterInt(TruncDiv(a.s, n)),
                       PercentAfterInt(TruncDiv(a.v, n))))
  }

  /** Unary minus, which writes the fields directly. */
  function Negation(c: Hsv32Color): (r: Hsv32Color)
    ensures Reachable(c) ==> Reachable(r)
    ensures Reachable(c) ==> r.h == 360 - c.h && r.s == 100 - c.s && r.v == 100 - c.v
  {
    Hsv32Color(NegatedHue(c.h), NegatedPercent(c.s), NegatedPercent(c.v))
  }

  /** `Difference`, static and instance: hue distance modulo 256, and the
      percentage distances. */
  function Distance(a: Hsv32Color, b: Hsv32Color): (r: Hsv32Color)
    ensures InPolicy(r) && 0 <= r.h < 0x100
  {
    Hsv32Color(HueDistance(a.h, b.h), PercentDistance(a.s, b.s), PercentDistance(a.v, b.v))
  }

  // ---------------------------------------------------------------------
  // The operators: each copies left and writes h, s and v in turn

  method Add(left: Hsv32Color, right: Hsv32Color) returns (r: Hsv32Color)
    ensures r == Sum(left, right)
  {
    r := left;
    r := SetH(r, ToShort(r.h + right.h));
    r := SetS(r, ToByte(r.s + right.s));
    r := SetV(r, ToByte(r.v + right.v));
  }

  method AddInt(left: Hsv32Color, right: Int32) returns (r: Hsv32Color)
    ensures r == SumInt(left, right)
  {
    r := left;
    r := SetH(r, ToInt32(r.h + right));
    r := SetS(r, ToInt32(r.s + right));
    r := SetV(r, ToInt32(r.v + right));
  }

  method Subtract(left: Hsv32Color, right: Hsv32Color) returns (r: Hsv32Color)
    ensures r == Difference(left, right)
  {
    r := left;
    r := SetH(r, ToShort(r.h - right.h));
    r := SetS(r, ToByte(r.s - right.s));
    r := SetV(r, ToByte(r.v - right.v));
  }

  method SubtractInt(left: Hsv32Color, right: Int32) returns (r: Hsv32Color)
    ensures r == DifferenceInt(left, right)
  {
    r := left;
    r := SetH(r, ToInt32(r.h - right));
    r := SetS(r, ToInt32(r.s - right));
    r := SetV(r, ToInt32(r.v - right));
  }

  method Multiply(left: Hsv32Color, right: Hsv32Color) returns (r: Hsv32Color)
    ensures r == Product(left, right)
  {
    r := left;
    r := SetH(r, ToShort(r.h * right.h));
    r := SetS(r, ToByte(r.s * right.s));
    r := SetV(r, ToByte(r.v * right.v));
  }

  method MultiplyInt(left: Hsv32Color, right: Int32) returns (r: Hsv32Color)
    ensures r == ProductInt(left, right)
  {
    r := left;
    r := SetH(r, ToInt32(r.h * right));
    r := SetS(r, ToInt32(r.s * right));
    r := SetV(r, ToInt32(r.v * right));
  }

  method Divide(left: Hsv32Color, right: Hsv32Color) returns (r: Result<Hsv32Color>)
    ensures r == Quotient(left, right)
  {
    var c := left;
    if right.h == 0 {
      return Throws(DivideByZero);
    }
    c := SetH(c, ToShort(TruncDiv(c.h, right.h)));
    if right.s == 0 {
      return Throws(DivideByZero);
    }
    c := SetS(c, ToByte(TruncDiv(c.s, right.s)));
    if right.v == 0 {
      return Throws(DivideByZero);
    }
    c := SetV(c, ToByte(TruncDiv(c.v, right.v)));
    r := Ok(c);
  }

  method DivideInt(left: Hsv32Color, right: Int32) returns (r: Result<Hsv32Color>)
    ensures r == QuotientInt(left, right)
  {
    if right == 0 {
      return Throws(DivideByZero);
    }
    var c := left;
    c := SetH(c, ToInt32(TruncDiv(c.h, right)));
    c := SetS(c, ToInt32(TruncDiv(c.s, right)));
    c := SetV(c, ToInt32(TruncDiv(c.v, right)));
    r := Ok(c);
  }

  method Negate(color: Hsv32Color) returns (r: Hsv32Color)
    ensures r == Negation(color)
  {
    r := color;
    r := r.(h := ToShort(360 - r.h));
    r := r.(s := ToByte(100 - r.s));
    r := r.(v := ToByte(100 - r.v));
  }

  /** The static `Difference(left, right)`: writes into the copy of left. */
  method StaticDifference(left: Hsv32Color, right: Hsv32Color) returns (r: Hsv32Color)
    ensures r == Distance(left, right)
  {
    r := left;
    r := SetH(r, ToByte(Abs(left.h - right.h)));
    r := SetS(r, ToByte(Abs(left.s - right.s)));
    r := SetV(r, ToByte(Abs(left.v - right.v)));
  }

  /** The instance `c.Difference(color)`: writes into the copy of color. */
  method InstanceDifference(c: Hsv32Color, color: Hsv32Color) returns (r: Hsv32Color)
    ensures r == Distance(c, color)
  {
    r := color;
    r := SetH(r, ToByte(Abs(c.h - r.h)));
    r := SetS(r, ToByte(Abs(c.s - r.s)));
    r := SetV(r, ToByte(Abs(c.v - r.v)));
  }

  // ---------------------------------------------------------------------
  // Properties

  /** On reachable colours, negated ones included, `+` adds hues modulo 360
      and saturates the percentages at 100. */
  lemma SumOfReachableColours(a: Hsv32Color, b: Hsv32Color)
    requires Reachable(a) && Reachable(b)
    ensures IsWrappedHue(a.h + b.h, Sum(a, b).h)
    ensures Sum(a, b).s == Smaller(a.s + b.s, 100) && Sum(a, b).v == Smaller(a.v + b.v, 100)
  {
  }

  /** On reachable colours, `-` takes hues modulo 360, keeping the sign, so
      the hue can turn negative; a percentage that would go below 0 wraps
      as a byte and comes out as 100, not 0. */
  lemma DifferenceOfReachableColours(a: Hsv32Color, b: Hsv32Color)
    requires Reachable(a) && Reachable(b)
    ensures IsWrappedHue(a.h - b.h, Difference(a, b).h)
    ensures Difference(a, b).s == (if a.s >= b.s then a.s - b.s else 100)
    ensures Difference(a, b).v == (if a.v >= b.v then a.v - b.v else 100)
  {
  }

  /** On colours in policy, `/` by non-zero channels is exact truncating
      division: neither the wrap nor the clamp changes the quotient. */
  lemma QuotientOfPolicyColours(a: Hsv32Color, b: Hsv32Color)
    requires InPolicy(a) && b.h != 0 && b.s != 0 && b.v != 0
    ensures Quotient(a, b) == Ok(Hsv32Color(TruncDiv(a.h, b.h), a.s / b.s, a.v / b.v))
  {
    var q := TruncDiv(a.h, b.h);
    assert IsWrappedHue(q, q);
    WrappedHueUnique(q, HueAfter(q), q);
  }

  /** Unary minus is an involution on every colour. */
  lemma NegationInvolution(c: Hsv32Color)
    ensures Negation(Negation(c)) == c
  {
    NegatedHueInvolution(c.h);
    NegatedPercentInvolution(c.s);
    NegatedPercentInvolution(c.v);
  }

  /** The static and instance `Difference` compute a symmetric distance that
      is zero exactly between equal colours. */
  lemma DistanceSymmetric(a: Hsv32Color, b: Hsv32Color)
    ensures Distance(a, b) == Distance(b, a)
    ensures Distance(a, b) == Hsv32Color(0, 0, 0) <==> a.s == b.s && a.v == b.v && (a.h - b.h) % 0x100 == 0
  {
  }

  /** Subtracting a larger saturation wraps to 100, and the hue turns
      negative. */
  lemma SubtractionExample()
    ensures Difference(Hsv32Color(10, 20, 50), Hsv32Color(20, 30, 50)) == Hsv32Color(-10, 100, 0)
  {
    assert IsWrappedHue(-10, -10);
    WrappedHueUnique(-10, HueAfter(-10), -10);
  }

  /** A hue product overflows the short before `% 360`. */
  lemma ProductExample()
    ensures Product(Hsv32Color(200, 10, 10), Hsv32Color(200, 10, 10)) == Hsv32Color(-336, 100, 100)
  {
    NarrowingExamples();
  }

  /** Negating a hue of 0 gives 360, outside what the setters store. */
  lemma NegationExample()
    ensures Negation(Hsv32Color(0, 0, 100)) == Hsv32Color(360, 100, 0)
    ensures !InPolicy(Hsv32Color(360, 100, 0))
  {
  }

  /** A hue distance above 255 wraps as a byte: hues 0 and 300 are 44 apart. */
  lemma DistanceWrapsAbove255(a: Hsv32Color, b: Hsv32Color)
    requires 0x100 <= Abs(a.h - b.h) < 0x200
    ensures Distance(a, b).h == Abs(a.h - b.h) - 0x100
  {
    var x := Abs(a.h - b.h);
    ToByteCongruent(x, x - 0x100);
    assert HueDistance(a.h, b.h) == ToByte(x);
  }
}
