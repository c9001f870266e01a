/** HSV24Color (ColourLib/HSV24Color.cs): three plain byte channels. The
    byte setters store what they are given, the `int` setters clamp to
    [0,255], and the operators act on each channel as byte arithmetic, so
    they wrap modulo 256. */
module Hsv24 {
  import opened CSharpInt
  import opened Results
  import opened ChannelPolicy

  /** The H, S and V setters store their bytes
      unchanged: the datatype constructor and record update model them. */
  datatype Hsv24Color = Hsv24Color(h: Byte, s: Byte, v: Byte)

  /** The channels in indexer order. */
  function Channels(c: Hsv24Color): seq<Byte>
  {
    [c.h, c.s, c.v]
  }

  /** The colour with every channel equal to b: the operators with a byte
      operand treat it like this colour. */
  function Uniform(b: Byte): Hsv24Color
  {
    Hsv24Color(b, b, b)
  }

  // ---------------------------------------------------------------------
  // The `int` setters

  function SetH32(c: Hsv24Color, value: Int32): (d: Hsv24Color)
    ensures d.h == Clamp(value, 0, 255) && d.s == c.s && d.v == c.v
  {
    c.(h := ClampByte(value))
  }

  function SetS32(c: Hsv24Color, value: Int32): (d: Hsv24Color)
    ensures d.s == Clamp(value, 0, 255) && d.h == c.h && d.v == c.v
  {
    c.(s := ClampByte(value))
  }

  function SetV32(c: Hsv24Color, value: Int32): (d: Hsv24Color)
    ensures d.v == Clamp(value, 0, 255) && d.h == c.h && d.s == c.s
  {
    c.(v := ClampByte(value))
  }

  // ---------------------------------------------------------------------
  // Indexer, Equals, Max, Min

  /** The indexer's getter: h, s, v for 0..2. */
  function Get(c: Hsv24Color, i: Int32): (r: Result<Byte>)
    ensures r.Ok? <==> 0 <= i < 3
    ensures r.Throws? ==> r.exception == IndexOutOfRange
    ensures r.Ok? ==> r.value == Channels(c)[i]
  {
    if i == 0 then Ok(c.h)
    else if i == 1 then Ok(c.s)
    else if i == 2 then Ok(c.v)
    else Throws(IndexOutOfRange)
  }

  /** The indexer's setter: stores the byte in channel i through the byte
      setter and leaves the other two alone. */
  function Set(c: Hsv24Color, i: Int32, value: Byte): (r: Result<Hsv24Color>)
    ensures r.Ok? <==> 0 <= i < 3
    ensures r.Throws? ==> r.exception == IndexOutOfRange
    ensures r.Ok? ==> Get(r.value, i) == Ok(value)
    ensures r.Ok? ==> forall j: Int32 :: 0 <= j < 3 && j != i ==> Get(r.value, j) == Get(c, j)
  {
    if i == 0 then Ok(c.(h := value))
    else if i == 1 then Ok(c.(s := value))
    else if i == 2 then Ok(c.(v := value))
    else Throws(IndexOutOfRange)
  }

  function Equals(c: Hsv24Color, color: Hsv24Color): (eq: bool)
    ensures eq <==> c == color
  {
    c.h == color.h && c.s == color.s && c.v == color.v
  }

  function Max(c: Hsv24Color): (m: Byte)
    ensures m == c.h || m == c.s || m == c.v
    ensures c.h <= m && c.s <= m && c.v <= m
  {
    Larger(c.h, Larger(c.s, c.v))
  }

  function Min(c: Hsv24Color): (m: Byte)
    ensures m == c.h || m == c.s || m == c.v
    ensures m <= c.h && m <= c.s && m <= c.v
  {
    Smaller(c.h, Smaller(c.s, c.v))
  }

  // ---------------------------------------------------------------------
  // What the operators compute: `x op= y` on a byte property is
  // `x = (byte)(x op y)`

  function Sum(a: Hsv24Color, b: Hsv24Color): Hsv24Color
  {
    Hsv24Color(ToByte(a.h + b.h), ToByte(a.s + b.s), ToByte(a.v + b.v))
  }

  function Difference(a: Hsv24Color, b: Hsv24Color): Hsv24Color
  {
    Hsv24Color(ToByte(a.h - b.h), ToByte(a.s - b.s), ToByte(a.v - b.v))
  }

  function Product(a: Hsv24Color, b: Hsv24Color): Hsv24Color
  {
    Hsv24Color(ToByte(a.h * b.h), ToByte(a.s * b.s), ToByte(a.v * b.v))
  }

  /** `left / right`: truncating division channel by channel; the first zero
      channel of right throws. */
  function Quotient(a: Hsv24Color, b: Hsv24Color): (r: Result<Hsv24Color>)
    ensures r.Ok? <==> b.h != 0 && b.s != 0 && b.v != 0
    ensures r.Throws? ==> r.exception == DivideByZero
    ensures r.Ok? ==> r.value.h <= a.h && r.value.s <= a.s && r.value.v <= a.v
  {
    if b.h == 0 || b.s == 0 || b.v == 0 then Throws(DivideByZero)
    else
      NatDivBounds(a.h, b.h);
      NatDivBounds(a.s, b.s);
      NatDivBounds(a.v, b.v);
      Ok(Hsv24Color(TruncDiv(a.h, b.h), TruncDiv(a.s, b.s), TruncDiv(a.v, b.v)))
  }

  /** Unary minus, which writes `(byte)(255 - x)` into each field. */
  function Negation(c: Hsv24Color): (r: Hsv24Color)
    ensures r.h == 255 - c.h && r.s == 255 - c.s && r.v == 255 - c.v
  {
    Hsv24Color(ToByte(255 - c.h), ToByte(255 - c.s), ToByte(255 - c.v))
  }

  /** `Difference`, static and instance: `(byte)Math.Abs(x - y)` per
      channel, which no byte pair wraps. */
  function Distance(a: Hsv24Color, b: Hsv24Color): (r: Hsv24Color)
    ensures r.h == Abs(a.h - b.h) && r.s == Abs(a.s - b.s) && r.v == Abs(a.v - b.v)
  {
    Hsv24Color(ToByte(Abs(a.h - b.h)), ToByte(Abs(a.s - b.s)), ToByte(Abs(a.v - b.v)))
  }

  // ---------------------------------------------------------------------
  // The operators: each copies left and writes h, s and v in turn

  method Add(left: Hsv24Color, right: Hsv24Color) returns (r: Hsv24Color)
    ensures r == Sum(left, right)
  {
    r := left;
    r := r.(h := ToByte(r.h + right.h));
    r := r.(s := ToByte(r.s + right.s));
    r := r.(v := ToByte(r.v + right.v));
  }

  /** `left + right` with a byte right: the colour sum with Uniform(right). */
  method AddByte(left: Hsv24Color, right: Byte) returns (r: Hsv24Color)
    ensures r == Sum(left, Uniform(right))
  {
    r := left;
    r := r.(h := ToByte(r.h + right));
    r := r.(s := ToByte(r.s + right));
    r := r.(v := ToByte(r.v + right));
  }

  method Subtract(left: Hsv24Color, right: Hsv24Color) returns (r: Hsv24Color)
    ensures r == Difference(left, right)
  {
    r := left;
    r := r.(h := ToByte(r.h - right.h));
    r := r.(s := ToByte(r.s - right.s));
    r := r.(v := ToByte(r.v - right.v));
  }

  method SubtractByte(left: Hsv24Color, right: Byte) returns (r: Hsv24Color)
    ensures r == Difference(left, Uniform(right))
  {
    r := left;
    r := r.(h := ToByte(r.h - right));
    r := r.(s := ToByte(r.s - right));
    r := r.(v := ToByte(r.v - right));
  }

  method Multiply(left: Hsv24Color, right: Hsv24Color) returns (r: Hsv24Color)
    ensures r == Product(left, right)
  {
    r := left;
    r := r.(h := ToByte(r.h * right.h));
    r := r.(s := ToByte(r.s * right.s));
    r := r.(v := ToByte(r.v * right.v));
  }

  method MultiplyByte(left: Hsv24Color, right: Byte) returns (r: Hsv24Color)
    ensures r == Product(left, Uniform(right))
  {
    r := left;
    r := r.(h := ToByte(r.h * right));
    r := r.(s := ToByte(r.s * right));
    r := r.(v := ToByte(r.v * right));
  }

  method Divide(left: Hsv24Color, right: Hsv24Color) returns (r: Result<Hsv24Color>)
    ensures r == Quotient(left, right)
  {
    var c := left;
    if right.h == 0 {
      return Throws(DivideByZero);
    }
    c := c.(h := ToByte(TruncDiv(c.h, right.h)));
    if right.s == 0 {
      return Throws(DivideByZero);
    }
    c := c.(s := ToByte(TruncDiv(c.s, right.s)));
    if right.v == 0 {
      return Throws(DivideByZero);
    }
    c := c.(v := ToByte(TruncDiv(c.v, right.v)));
    r := Ok(c);
  }

  method DivideByte(left: Hsv24Color, right: Byte) returns (r: Result<Hsv24Color>)
    ensures r == Quotient(left, Uniform(right))
  {
    if right == 0 {
      return Throws(DivideByZero);
    }
    var c := left;
    c := c.(h := ToByte(TruncDiv(c.h, right)));
    c := c.(s := ToByte(TruncDiv(c.s, right)));
    c := c.(v := ToByte(TruncDiv(c.v, right)));
    r := Ok(c);
  }

  method Negate(color: Hsv24Color) returns (r: Hsv24Color)
    ensures r == Negation(color)
  {
    r := color;
    r := r.(h := ToByte(255 - r.h));
    r := r.(s := ToByte(255 - r.s));
    r := r.(v := ToByte(255 - r.v));
  }

  /** The static `Difference(left, right)`: writes into the copy of left. */
  method StaticDifference(left: Hsv24Color, right: Hsv24Color) returns (r: Hsv24Color)
    ensures r == Distance(left, right)
  {
    r := left;
    r := r.(h := ToByte(Abs(left.h - right.h)));
    r := r.(s := ToByte(Abs(left.s - right.s)));
    r := r.(v := ToByte(Abs(left.v - right.v)));
  }

  /** The instance `c.Difference(color)`: writes into the copy of color. */
  method InstanceDifference(c: Hsv24Color, color: Hsv24Color) returns (r: Hsv24Color)
    ensures r == Distance(c, color)
  {
    r := color;
    r := r.(h := ToByte(Abs(c.h - r.h)));
    r := r.(s := ToByte(Abs(c.s - r.s)));
    r := r.(v := ToByte(Abs(c.v - r.v)));
  }

  // ---------------------------------------------------------------------
  // Properties

  /** `-` undoes `+` and `+` undoes `-`: the channels form the integers
      modulo 256. */
  lemma DifferenceUndoesSum(a: Hsv24Color, b: Hsv24Color)
    ensures Difference(Sum(a, b), b) == a
    ensures Sum(Difference(a, b), b) == a
  {
    var sum, diff := Sum(a, b), Difference(a, b);
    ByteSumDifference(a.h, b.h, sum.h, diff.h);
    ByteSumDifference(a.s, b.s, sum.s, diff.s);
    ByteSumDifference(a.v, b.v, sum.v, diff.v);
  }

  lemma SumAndProductCommute(a: Hsv24Color, b: Hsv24Color)
    ensures Sum(a, b) == Sum(b, a)
    ensures Product(a, b) == Product(b, a)
  {
  }

  /** `*` distributes over `+`, as byte arithmetic does. */
  lemma ProductDistributes(a: Hsv24Color, b: Hsv24Color, c: Hsv24Color)
    ensures Product(a, Sum(b, c)) == Sum(Product(a, b), Product(a, c))
  {
    var sum, p, q := Sum(b, c), Product(a, b), Product(a, c);
    ByteDistributes(a.h, b.h, c.h, sum.h, p.h, q.h);
    ByteDistributes(a.s, b.s, c.s, sum.s, p.s, q.s);
    ByteDistributes(a.v, b.v, c.v, sum.v, p.v, q.v);
  }

  /** The uniform colours 1 and 0 are the unit and the zero of `*`. */
  lemma ProductUnitAndZero(a: Hsv24Color)
    ensures Product(a, Uniform(1)) == a
    ensures Product(a, Uniform(0)) == Uniform(0)
  {
  }

  /** On non-zero divisors, each quotient channel is the truncated quotient:
      q * d <= x < (q + 1) * d. */
  lemma QuotientTruncates(a: Hsv24Color, b: Hsv24Color)
    requires b.h != 0 && b.s != 0 && b.v != 0
    ensures Quotient(a, b).Ok?
    ensures Quotient(a, b).value.h * b.h <= a.h < (Quotient(a, b).value.h + 1) * b.h
    ensures Quotient(a, b).value.s * b.s <= a.s < (Quotient(a, b).value.s + 1) * b.s
    ensures Quotient(a, b).value.v * b.v <= a.v < (Quotient(a, b).value.v + 1) * b.v
  {
    TruncDivBrackets(a.h, b.h);
    TruncDivBrackets(a.s, b.s);
    TruncDivBrackets(a.v, b.v);
  }

  /** Unary minus is an involution and is subtraction from white. */
  lemma NegationInvolution(c: Hsv24Color)
    ensures Negation(Negation(c)) == c
    ensures Negation(c) == Difference(Uniform(255), c)
  {
  }

  /** `Difference` is symmetric and is zero exactly between equal colours. */
  lemma DistanceSymmetric(a: Hsv24Color, b: Hsv24Color)
    ensures Distance(a, b) == Distance(b, a)
    ensures Distance(a, b) == Uniform(0) <==> a == b
  {
  }
}
