/** Hsl32Color (ColourLib/Hsl32Color.cs): hue in degrees as a `short`,
    saturation and lightness as byte percentages. Every write except unary
    minus goes through a setter that wraps the hue with C#'s `% 360` and
    clamps the percentages to [0,100]. */
module Hsl32 {
  import opened CSharpInt
  import opened Results
  import opened ChannelPolicy
  import opened Scale32Channels

  datatype Hsl32Color = Hsl32Color(h: Short, s: Byte, l: Byte)

  /** What the setters store: a wrapped hue and two percentages. */
  predicate InPolicy(c: Hsl32Color)
  {
    -360 < c.h < 360 && c.s <= 100 && c.l <= 100
  }

  /** What the operations reach from colours in policy: unary minus, which
      bypasses the setters, moves the hue into (0, 720). */
  predicate Reachable(c: Hsl32Color)
  {
    -360 < c.h < 720 && c.s <= 100 && c.l <= 100
  }

  /** The channels in indexer order. */
  function Channels(c: Hsl32Color): seq<int>
  {
    [c.h, c.s, c.l]
  }

  // ---------------------------------------------------------------------
  // Setters and constructors

  /** `H` and `H32`: `h = (short)(value % 360)`. H's `short` argument is an
      `int` here, since both setters have the same body. */
  function SetH(c: Hsl32Color, value: Int32): (d: Hsl32Color)
    ensures IsWrappedHue(value, d.h)
    ensures d.s == c.s && d.l == c.l
  {
    c.(h := WrapHue(value))
  }

  /** `S` and `S32`: `s = (byte)Math.Clamp(value, 0, 100)`. */
  function SetS(c: Hsl32Color, value: Int32): (d: Hsl32Color)
    ensures d.s == Clamp(value, 0, 100)
    ensures d.h == c.h && d.l == c.l
  {
    c.(s := ClampPercent(value))
  }

  /** `L` and `L32`: `l = (byte)Math.Clamp(value, 0, 100)`. */
  function SetL(c: Hsl32Color, value: Int32): (d: Hsl32Color)
    ensures d.l == Clamp(value, 0, 100)
    ensures d.h == c.h && d.s == c.s
  {
    c.(l := ClampPercent(value))
  }

  /** `new Hsl32Color(byte h, byte s, byte l)`: through H, S and L; a byte
      hue is below 360 and is kept as it is. */
  method FromBytes(h: Byte, s: Byte, l: Byte) returns (c: Hsl32Color)
    ensures c == Hsl32Color(h, Clamp(s, 0, 100), Clamp(l, 0, 100))
    ensures InPolicy(c)
  {
    c := Hsl32Color(0, 0, 0);
    c := SetH(c, h);
    c := SetS(c, s);
    c := SetL(c, l);
  }

  /** `new Hsl32Color(int h, int s, int l)`: through H32, S32 and L32. */
  method FromInts(h: Int32, s: Int32, l: Int32) returns (c: Hsl32Color)
    ensures IsWrappedHue(h, c.h) && c.s == Clamp(s, 0, 100) && c.l == Clamp(l, 0, 100)
    ensures InPolicy(c)
  {
    c := Hsl32Color(0, 0, 0);
    c := SetH(c, h);
    c := SetS(c, s);
    c := SetL(c, l);
  }

  // ---------------------------------------------------------------------
  // Indexer, Equals, Max, Min

  /** The indexer's getter: h, s, l for 0..2. */
  function Get(c: Hsl32Color, i: Int32): (r: Result<int>)
    ensures r.Ok? <==> 0 <= i < 3
    ensures r.Throws? ==> r.exception == IndexOutOfRange
    ensures r.Ok? ==> r.value == Channels(c)[i]
  {
    if i == 0 then Ok(c.h as int)
    else if i == 1 then Ok(c.s as int)
    else if i == 2 then Ok(c.l as int)
    else Throws(IndexOutOfRange)
  }

  /** The indexer's setter: writes channel i through H32, S32 or L32 and
      leaves the other two alone. */
  function Set(c: Hsl32Color, i: Int32, value: Int32): (r: Result<Hsl32Color>)
    ensures r.Ok? <==> 0 <= i < 3
    ensures r.Throws? ==> r.exception == IndexOutOfRange
    ensures r.Ok? && i == 0 ==> IsWrappedHue(value, r.value.h)
    ensures r.Ok? && i != 0 ==> Get(r.value, i) == Ok(Clamp(value, 0, 100))
    ensures r.Ok? ==> forall j: Int32 :: 0 <= j < 3 && j != i ==> Get(r.value, j) == Get(c, j)
    ensures r.Ok? && InPolicy(c) ==> InPolicy(r.value)
  {
    if i == 0 then Ok(SetH(c, value))
    else if i == 1 then Ok(SetS(c, value))
    else if i == 2 then Ok(SetL(c, value))
    else Throws(IndexOutOfRange)
  }

  function Equals(c: Hsl32Color, color: Hsl32Color): (eq: bool)
    ensures eq <==> c == color
  {
    c.h == color.h && c.s == color.s && c.l == color.l
  }

  /** `Max()`: the largest of the three channels, hue included. */
  function Max(c: Hsl32Color): (m: int)
    ensures m == c.h || m == c.s || m == c.l
    ensures c.h <= m && c.s <= m && c.l <= m
  {
    Larger(c.h, Larger(c.s, c.l))
  }

  /** `Min()`: the smallest of the three channels, hue included. */
  function Min(c: Hsl32Color): (m: int)
    ensures m == c.h || m == c.s || m == c.l
    ensures m <= c.h && m <= c.s && m <= c.l
  {
    Smaller(c.h, Smaller(c.s, c.l))
  }

  // ---------------------------------------------------------------------
  // What the operators compute, channel by channel

  /** `left + right`. */
  function Sum(a: Hsl32Color, b: Hsl32Color): (r: Hsl32Color)
    ensures InPolicy(r)
  {
    Hsl32Color(HueAfter(a.h + b.h), PercentAfter(a.s + b.s), PercentAfter(a.l + b.l))
  }

  /** `left - right`. */
  function Difference(a: Hsl32Color, b: Hsl32Color): (r: Hsl32Color)
    ensures InPolicy(r)
  {
    Hsl32Color(HueAfter(a.h - b.h), PercentAfter(a.s - b.s), PercentAfter(a.l - b.l))
  }

  /** `left * right`. */
  function Product(a: Hsl32Color, b: Hsl32Color): (r: Hsl32Color)
    ensures InPolicy(r)
  {
    Hsl32Color(HueAfter(a.h * b.h), PercentAfter(a.s * b.s), PercentAfter(a.l * b.l))
  }

  /** `left / right`: the first zero channel of right throws. */
  function Quotient(a: Hsl32Color, b: Hsl32Color): (r: Result<Hsl32Color>)
    ensures r.Ok? <==> b.h != 0 && b.s != 0 && b.l != 0
    ensures r.Throws? ==> r.exception == DivideByZero
    ensures r.Ok? ==> InPolicy(r.value)
  {
    if b.h == 0 || b.s == 0 || b.l == 0 then Throws(DivideByZero)
    else Ok(Hsl32Color(HueAfter(TruncDiv(a.h, b.h)), PercentAfter(TruncDiv(a.s, b.s)),
                       PercentAfter(TruncDiv(a.l, b.l))))
  }

  /** `left + n`, `left - n`, `left * n` with an `int` n, and `left / n`. */
  function SumInt(a: Hsl32Color, n: Int32): (r: Hsl32Color)
    ensures InPolicy(r)
  {
    Hsl32Color(HueAfterInt(a.h + n), PercentAfterInt(a.s + n), PercentAfterInt(a.l + n))
  }

  function DifferenceInt(a: Hsl32Color, n: Int32): (r: Hsl32Color)
    ensures InPolicy(r)
  {
    Hsl32Color(HueAfterInt(a.h - n), PercentAfterInt(a.s - n), PercentAfterInt(a.l - n))
  }

  function ProductInt(a: Hsl32Color, n: Int32): (r: Hsl32Color)
    ensures InPolicy(r)
  {
    Hsl32Color(HueAfterInt(a.h * n), PercentAfterInt(a.s * n), PercentAfterInt(a.l * n))
  }

  function QuotientInt(a: Hsl32Color, n: Int32): (r: Result<Hsl32Color>)
    ensures r.Ok? <==> n != 0
    ensures r.Throws? ==> r.exception == DivideByZero
    ensures r.Ok? ==> InPolicy(r.value)
  {
    if n == 0 then Throws(DivideByZero)
    else Ok(Hsl32Color(HueAfterInt(TruncDiv(a.h, n)), PercentAfterInt(TruncDiv(a.s, n)),
                       PercentAfterInt(TruncDiv(a.l, n))))
  }

  /** Unary minus, which writes the fields directly. */
  function Negation(c: Hsl32Color): (r: Hsl32Color)
    ensures Reachable(c) ==> Reachable(r)
    ensures Reachable(c) ==> r.h == 360 - c.h && r.s == 100 - c.s && r.l == 100 - c.l
  {
    Hsl32Color(NegatedHue(c.h), NegatedPercent(c.s), NegatedPercent(c.l))
  }

  /** `Difference`, static and instance: hue distance modulo 256, and the
      percentage distances. */
  function Distance(a: Hsl32Color, b: Hsl32Color): (r: Hsl32Color)
    ensures InPolicy(r) && 0 <= r.h < 0x100
  {
    Hsl32Color(HueDistance(a.h, b.h), PercentDistance(a.s, b.s), PercentDistance(a.l, b.l))
  }

  // ---------------------------------------------------------------------
  // The operators: each copies left and writes h, s and l in turn

  method Add(left: Hsl32Color, right: Hsl32Color) returns (r: Hsl32Color)
    ensures r == Sum(left, right)
  {
    r := left;
    r := SetH(r, ToShort(r.h + right.h));
    r := SetS(r, ToByte(r.s + right.s));
    r := SetL(r, ToByte(r.l + right.l));
  }

  method AddInt(left: Hsl32Color, right: Int32) returns (r: Hsl32Color)
    ensures r == SumInt(left, right)
  {
    r := left;
    r := SetH(r, ToInt32(r.h + right));
    r := SetS(r, ToInt32(r.s + right));
    r := SetL(r, ToInt32(r.l + right));
  }

  method Subtract(left: Hsl32Color, right: Hsl32Color) returns (r: Hsl32Color)
    ensures r == Difference(left, right)
  {
    r := left;
    r := SetH(r, ToShort(r.h - right.h));
    r := SetS(r, ToByte(r.s - right.s));
    r := SetL(r, ToByte(r.l - right.l));
  }

  method SubtractInt(left: Hsl32Color, right: Int32) returns (r: Hsl32Color)
    ensures r == DifferenceInt(left, right)
  {
    r := left;
    r := SetH(r, ToInt32(r.h - right));
    r := SetS(r, ToInt32(r.s - right));
    r := SetL(r, ToInt32(r.l - right));
  }

  method Multiply(left: Hsl32Color, right: Hsl32Color) returns (r: Hsl32Color)
    ensures r == Product(left, right)
  {
    r := left;
    r := SetH(r, ToShort(r.h * right.h));
    r := SetS(r, ToByte(r.s * right.s));
    r := SetL(r, ToByte(r.l * right.l));
  }

  method MultiplyInt(left: Hsl32Color, right: Int32) returns (r: Hsl32Color)
    ensures r == ProductInt(left, right)
  {
    r := left;
    r := SetH(r, ToInt32(r.h * right));
    r := SetS(r, ToInt32(r.s * right));
    r := SetL(r, ToInt32(r.l * right));
  }

  method Divide(left: Hsl32Color, right: Hsl32Color) returns (r: Result<Hsl32Color>)
    ensures r == Quotient(left, right)
  {
    var c := left;
    if right.h == 0 {
      return Throws(DivideByZero);
    }
    c := SetH(c, ToShort(TruncDiv(c.h, right.h)));
    if right.s == 0 {
      return Throws(DivideByZero);
    }
    c := SetS(c, ToByte(TruncDiv(c.s, right.s)));
    if right.l == 0 {
      return Throws(DivideByZero);
    }
    c := SetL(c, ToByte(TruncDiv(c.l, right.l)));
    r := Ok(c);
  }

  method DivideInt(left: Hsl32Color, right: Int32) returns (r: Result<Hsl32Color>)
    ensures r == QuotientInt(left, right)
  {
    if right == 0 {
      return Throws(DivideByZero);
    }
    var c := left;
    c := SetH(c, ToInt32(TruncDiv(c.h, right)));
    c := SetS(c, ToInt32(TruncDiv(c.s, right)));
    c := SetL(c, ToInt32(TruncDiv(c.l, right)));
    r := Ok(c);
  }

  method Negate(color: Hsl32Color) returns (r: Hsl32Color)
    ensures r == Negation(color)
  {
    r := color;
    r := r.(h := ToShort(360 - r.h));
    r := r.(s := ToByte(100 - r.s));
    r := r.(l := ToByte(100 - r.l));
  }

  /** The static `Difference(left, right)`: writes into the copy of left. */
  method StaticDifference(left: Hsl32Color, right: Hsl32Color) returns (r: Hsl32Color)
    ensures r == Distance(left, right)
  {
    r := left;
    r := SetH(r, ToByte(Abs(left.h - right.h)));
    r := SetS(r, ToByte(Abs(left.s - right.s)));
    r := SetL(r, ToByte(Abs(left.l - right.l)));
  }

  /** The instance `c.Difference(color)`: writes into the copy of color. */
  method InstanceDifference(c: Hsl32Color, color: Hsl32Color) returns (r: Hsl32Color)
    ensures r == Distance(c, color)
  {
    r := color;
    r := SetH(r, ToByte(Abs(c.h - r.h)));
    r := SetS(r, ToByte(Abs(c.s - r.s)));
    r := SetL(r, ToByte(Abs(c.l - r.l)));
  }

  // ---------------------------------------------------------------------
  // Properties

  /** On reachable colours, negated ones included, `+` adds hues modulo 360
      and saturates the percentages at 100. */
  lemma SumOfReachableColours(a: Hsl32Color, b: Hsl32Color)
    requires Reachable(a) && Reachable(b)
    ensures IsWrappedHue(a.h + b.h, Sum(a, b).h)
    ensures Sum(a, b).s == Smaller(a.s + b.s, 100) && Sum(a, b).l == Smaller(a.l + b.l, 100)
  {
  }

  /** On reachable colours, `-` takes hues modulo 360, keeping the sign, so
      the hue can turn negative; a percentage that would go below 0 wraps
      as a byte and comes out as 100, not 0. */
  lemma DifferenceOfReachableColours(a: Hsl32Color, b: Hsl32Color)
    requires Reachable(a) && Reachable(b)
    ensures IsWrappedHue(a.h - b.h, Difference(a, b).h)
    ensures Difference(a, b).s == (if a.s >= b.s then a.s - b.s else 100)
    ensures Difference(a, b).l == (if a.l >= b.l then a.l - b.l else 100)
  {
  }

  /** On colours in policy, `/` by non-zero channels is exact truncating
      division: neither the wrap nor the clamp changes the quotient. */
  lemma QuotientOfPolicyColours(a: Hsl32Color, b: Hsl32Color)
    requires InPolicy(a) && b.h != 0 && b.s != 0 && b.l != 0
    ensures Quotient(a, b) == Ok(Hsl32Color(TruncDiv(a.h, b.h), a.s / b.s, a.l / b.l))
  {
    var q := TruncDiv(a.h, b.h);
    assert IsWrappedHue(q, q);
    WrappedHueUnique(q, HueAfter(q), q);
  }

  /** Unary minus is an involution on every colour. */
  lemma NegationInvolution(c: Hsl32Color)
    ensures Negation(Negation(c)) == c
  {
    NegatedHueInvolution(c.h);
    NegatedPercentInvolution(c.s);
    NegatedPercentInvolution(c.l);
  }

  /** The static and instance `Difference` compute a symmetric distance that
      is zero exactly between equal colours. */
  lemma DistanceSymmetric(a: Hsl32Color, b: Hsl32Color)
    ensures Distance(a, b) == Distance(b, a)
    ensures Distance(a, b) == Hsl32Color(0, 0, 0) <==> a.s == b.s && a.l == b.l && (a.h - b.h) % 0x100 == 0
  {
  }

  /** Subtracting a larger saturation wraps to 100, and the hue turns
      negative. */
  lemma SubtractionExample()
    ensures Difference(Hsl32Color(10, 20, 50), Hsl32Color(20, 30, 50)) == Hsl32Color(-10, 100, 0)
  {
    assert IsWrappedHue(-10, -10);
    WrappedHueUnique(-10, HueAfter(-10), -10);
  }

  /** A hue product overflows the short before `% 360`. */
  lemma ProductExample()
    ensures Product(Hsl32Color(200, 10, 10), Hsl32Color(200, 10, 10)) == Hsl32Color(-336, 100, 100)
  {
    NarrowingExamples();
  }

  /** Negating a hue of 0 gives 360, outside what the setters store. */
  lemma NegationExample()
    ensures Negation(Hsl32Color(0, 0, 100)) == Hsl32Color(360, 100, 0)
    ensures !InPolicy(Hsl32Color(360, 100, 0))
  {
  }

  /** A hue distance above 255 wraps as a byte: hues 0 and 300 are 44 apart. */
  lemma DistanceWrapsAbove255(a: Hsl32Color, b: Hsl32Color)
    requires 0x100 <= Abs(a.h - b.h) < 0x200
    ensures Distance(a, b).h == Abs(a.h - b.h) - 0x100
  {
    var x := Abs(a.h - b.h);
    ToByteCongruent(x, x - 0x100);
    assert HueDistance(a.h, b.h) == ToByte(x);
  }
}
