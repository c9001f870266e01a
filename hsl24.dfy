/** HSL24Color (ColourLib/HSL24Color.cs): three plain byte channels. The
    byte setters store what they are given, the `int` setters clamp to
    [0,255], and the operators act on each channel as byte arithmetic, so
    they wrap modulo 256. */
module Hsl24 {
  import opened CSharpInt
  import opened Results
  import opened ChannelPolicy

  /** The byte constructor and the H, S and L setters store their bytes
      unchanged: the datatype constructor and record update model them. */
  datatype Hsl24Color = Hsl24Color(h: Byte, s: Byte, l: Byte)

  /** The channels in indexer order. */
  function Channels(c: Hsl24Color): seq<Byte>
  {
    [c.h, c.s, c.l]
  }

  /** The colour with every channel equal to b: the operators with a byte
      operand treat it like this colour. */
  function Uniform(b: Byte): Hsl24Color
  {
    Hsl24Color(b, b, b)
  }

  // ---------------------------------------------------------------------
  // The `int` setters and the `int` constructor

  function SetH32(c: Hsl24Color, value: Int32): (d: Hsl24Color)
    ensures d.h == Clamp(value, 0, 255) && d.s == c.s && d.l == c.l
  {
    c.(h := ClampByte(value))
  }

  function SetS32(c: Hsl24Color, value: Int32): (d: Hsl24Color)
    ensures d.s == Clamp(value, 0, 255) && d.h == c.h && d.l == c.l
  {
    c.(s := ClampByte(value))
  }

  function SetL32(c: Hsl24Color, value: Int32): (d: Hsl24Color)
    ensures d.l == Clamp(value, 0, 255) && d.h == c.h && d.s == c.s
  {
    c.(l := ClampByte(value))
  }

  /** `new HSL24Color(int h, int s, int l)`: through H32, S32 and L32. */
  method FromInts(h: Int32, s: Int32, l: Int32) returns (c: Hsl24Color)
    ensures c == Hsl24Color(Clamp(h, 0, 255), Clamp(s, 0, 255), Clamp(l, 0, 255))
  {
    c := Hsl24Color(0, 0, 0);
    c := SetH32(c, h);
    c := SetS32(c, s);
    c := SetL32(c, l);
  }

  // ---------------------------------------------------------------------
  // Indexer, Equals, Max, Min

  /** The indexer's getter: h, s, l for 0..2. */
  function Get(c: Hsl24Color, i: Int32): (r: Result<Byte>)
    ensures r.Ok? <==> 0 <= i < 3
    ensures r.Throws? ==> r.exception == IndexOutOfRange
    ensures r.Ok? ==> r.value == Channels(c)[i]
  {
    if i == 0 then Ok(c.h)
    else if i == 1 then Ok(c.s)
    else if i == 2 then Ok(c.l)
    else Throws(IndexOutOfRange)
  }

  /** The indexer's setter: stores the byte in channel i through the byte
      setter and leaves the other two alone. */
  function Set(c: Hsl24Color, i: Int32, value: Byte): (r: Result<Hsl24Color>)
    ensures r.Ok? <==> 0 <= i < 3
    ensures r.Throws? ==> r.exception == IndexOutOfRange
    ensures r.Ok? ==> Get(r.value, i) == Ok(value)
    ensures r.Ok? ==> forall j: Int32 :: 0 <= j < 3 && j != i ==> Get(r.value, j) == Get(c, j)
  {
    if i == 0 then Ok(c.(h := value))
    else if i == 1 then Ok(c.(s := value))
    else if i == 2 then Ok(c.(l := value))
    else Throws(IndexOutOfRange)
  }

  function Equals(c: Hsl24Color, color: Hsl24Color): (eq: bool)
    ensures eq <==> c == color
  {
    c.h == color.h && c.s == color.s && c.l == color.l
  }

  function Max(c: Hsl24Color): (m: Byte)
    ensures m == c.h || m == c.s || m == c.l
    ensures c.h <= m && c.s <= m && c.l <= m
  {
    Larger(c.h, Larger(c.s, c.l))
  }

  function Min(c: Hsl24Color): (m: Byte)
    ensures m == c.h || m == c.s || m == c.l
    ensures m <= c.h && m <= c.s && m <= c.l
  {
    Smaller(c.h, Smaller(c.s, c.l))
  }

  // ---------------------------------------------------------------------
  // What the operators compute: `x op= y` on a byte property is
  // `x = (byte)(x op y)`

  function Sum(a: Hsl24Color, b: Hsl24Color): Hsl24Color
  {
    Hsl24Color(ToByte(a.h + b.h), ToByte(a.s + b.s), ToByte(a.l + b.l))
  }

  function Difference(a: Hsl24Color, b: Hsl24Color): Hsl24Color
  {
    Hsl24Color(ToByte(a.h - b.h), ToByte(a.s - b.s), ToByte(a.l - b.l))
  }

  function Product(a: Hsl24Color, b: Hsl24Color): Hsl24Color
  {
    Hsl24Color(ToByte(a.h * b.h), ToByte(a.s * b.s), ToByte(a.l * b.l))
  }

  /** `left / right`: truncating division channel by channel; the first zero
      channel of right throws. */
  function Quotient(a: Hsl24Color, b: Hsl24Color): (r: Result<Hsl24Color>)
    ensures r.Ok? <==> b.h != 0 && b.s != 0 && b.l != 0
    ensures r.Throws? ==> r.exception == DivideByZero
    ensures r.Ok? ==> r.value.h <= a.h && r.value.s <= a.s && r.value.l <= a.l
  {
    if b.h == 0 || b.s == 0 || b.l == 0 then Throws(DivideByZero)
    else
      NatDivBounds(a.h, b.h);
      NatDivBounds(a.s, b.s);
      NatDivBounds(a.l, b.l);
      Ok(Hsl24Color(TruncDiv(a.h, b.h), TruncDiv(a.s, b.s), TruncDiv(a.l, b.l)))
  }

  /** Unary minus, which writes `(byte)(255 - x)` into each field. */
  function Negation(c: Hsl24Color): (r: Hsl24Color)
    ensures r.h == 255 - c.h && r.s == 255 - c.s && r.l == 255 - c.l
  {
    Hsl24Color(ToByte(255 - c.h), ToByte(255 - c.s), ToByte(255 - c.l))
  }

  /** `Difference`, static and instance: `(byte)Math.Abs(x - y)` per
      channel, which no byte pair wraps. */
  function Distance(a: Hsl24Color, b: Hsl24Color): (r: Hsl24Color)
    ensures r.h == Abs(a.h - b.h) && r.s == Abs(a.s - b.s) && r.l == Abs(a.l - b.l)
  {
    Hsl24Color(ToByte(Abs(a.h - b.h)), ToByte(Abs(a.s - b.s)), ToByte(Abs(a.l - b.l)))
  }

  // ---------------------------------------------------------------------
  // The operators: each copies left and writes h, s and l in turn

  method Add(left: Hsl24Color, right: Hsl24Color) returns (r: Hsl24Color)
    ensures r == Sum(left, right)
  {
    r := left;
    r := r.(h := ToByte(r.h + right.h));
    r := r.(s := ToByte(r.s + right.s));
    r := r.(l := ToByte(r.l + right.l));
  }

  /** `left + right` with a byte right: the colour sum with Uniform(right). */
  method AddByte(left: Hsl24Color, right: Byte) returns (r: Hsl24Color)
    ensures r == Sum(left, Uniform(right))
  {
    r := left;
    r := r.(h := ToByte(r.h + right));
    r := r.(s := ToByte(r.s + right));
    r := r.(l := ToByte(r.l + right));
  }

  method Subtract(left: Hsl24Color, right: Hsl24Color) returns (r: Hsl24Color)
    ensures r == Difference(left, right)
  {
    r := left;
    r := r.(h := ToByte(r.h - right.h));
    r := r.(s := ToByte(r.s - right.s));
    r := r.(l := ToByte(r.l - right.l));
  }

  method SubtractByte(left: Hsl24Color, right: Byte) returns (r: Hsl24Color)
    ensures r == Difference(left, Uniform(right))
  {
    r := left;
    r := r.(h := ToByte(r.h - right));
    r := r.(s := ToByte(r.s - right));
    r := r.(l := ToByte(r.l - right));
  }

  method Multiply(left: Hsl24Color, right: Hsl24Color) returns (r: Hsl24Color)
    ensures r == Product(left, right)
  {
    r := left;
    r := r.(h := ToByte(r.h * right.h));
    r := r.(s := ToByte(r.s * right.s));
    r := r.(l := ToByte(r.l * right.l));
  }

  method MultiplyByte(left: Hsl24Color, right: Byte) returns (r: Hsl24Color)
    ensures r == Product(left, Uniform(right))
  {
    r := left;
    r := r.(h := ToByte(r.h * right));
    r := r.(s := ToByte(r.s * right));
    r := r.(l := ToByte(r.l * right));
  }

  method Divide(left: Hsl24Color, right: Hsl24Color) returns (r: Result<Hsl24Color>)
    ensures r == Quotient(left, right)
  {
    var c := left;
    if right.h == 0 {
      return Throws(DivideByZero);
    }
    c := c.(h := ToByte(TruncDiv(c.h, right.h)));
    if right.s == 0 {
      return Throws(DivideByZero);
    }
    c := c.(s := ToByte(TruncDiv(c.s, right.s)));
    if right.l == 0 {
      return Throws(DivideByZero);
    }
    c := c.(l := ToByte(TruncDiv(c.l, right.l)));
    r := Ok(c);
  }

  method DivideByte(left: Hsl24Color, right: Byte) returns (r: Result<Hsl24Color>)
    ensures r == Quotient(left, Uniform(right))
  {
    if right == 0 {
      return Throws(DivideByZero);
    }
    var c := left;
    c := c.(h := ToByte(TruncDiv(c.h, right)));
    c := c.(s := ToByte(TruncDiv(c.s, right)));
    c := c.(l := ToByte(TruncDiv(c.l, right)));
    r := Ok(c);
  }

  method Negate(color: Hsl24Color) returns (r: Hsl24Color)
    ensures r == Negation(color)
  {
    r := color;
    r := r.(h := ToByte(255 - r.h));
    r := r.(s := ToByte(255 - r.s));
    r := r.(l := ToByte(255 - r.l));
  }

  /** The static `Difference(left, right)`: writes into the copy of left. */
  method StaticDifference(left: Hsl24Color, right: Hsl24Color) returns (r: Hsl24Color)
    ensures r == Distance(left, right)
  {
    r := left;
    r := r.(h := ToByte(Abs(left.h - right.h)));
    r := r.(s := ToByte(Abs(left.s - right.s)));
    r := r.(l := ToByte(Abs(left.l - right.l)));
  }

  /** The instance `c.Difference(color)`: writes into the copy of color. */
  method InstanceDifference(c: Hsl24Color, color: Hsl24Color) returns (r: Hsl24Color)
    ensures r == Distance(c, color)
  {
    r := color;
    r := r.(h := ToByte(Abs(c.h - r.h)));
    r := r.(s := ToByte(Abs(c.s - r.s)));
    r := r.(l := ToByte(Abs(c.l - r.l)));
  }

  // ---------------------------------------------------------------------
  // Properties

  /** `-` undoes `+` and `+` undoes `-`: the channels form the integers
      modulo 256. */
  lemma DifferenceUndoesSum(a: Hsl24Color, b: Hsl24Color)
    ensures Difference(Sum(a, b), b) == a
    ensures Sum(Difference(a, b), b) == a
  {
    var sum, diff := Sum(a, b), Difference(a, b);
    ByteSumDifference(a.h, b.h, sum.h, diff.h);
    ByteSumDifference(a.s, b.s, sum.s, diff.s);
    ByteSumDifference(a.l, b.l, sum.l, diff.l);
  }

  lemma SumAndProductCommute(a: Hsl24Color, b: Hsl24Color)
    ensures Sum(a, b) == Sum(b, a)
    ensures Product(a, b) == Product(b, a)
  {
  }

  /** `*` distributes over `+`, as byte arithmetic does. */
  lemma ProductDistributes(a: Hsl24Color, b: Hsl24Color, c: Hsl24Color)
    ensures Product(a, Sum(b, c)) == Sum(Product(a, b), Product(a, c))
  {
    var sum, p, q := Sum(b, c), Product(a, b), Product(a, c);
    ByteDistributes(a.h, b.h, c.h, sum.h, p.h, q.h);
    ByteDistributes(a.s, b.s, c.s, sum.s, p.s, q.s);
    ByteDistributes(a.l, b.l, c.l, sum.l, p.l, q.l);
  }

  /** The uniform colours 1 and 0 are the unit and the zero of `*`. */
  lemma ProductUnitAndZero(a: Hsl24Color)
    ensures Product(a, Uniform(1)) == a
    ensures Product(a, Uniform(0)) == Uniform(0)
  {
  }

  /** On non-zero divisors, each quotient channel is the truncated quotient:
      q * d <= x < (q + 1) * d. */
  lemma QuotientTruncates(a: Hsl24Color, b: Hsl24Color)
    requires b.h != 0 && b.s != 0 && b.l != 0
    ensures Quotient(a, b).Ok?
    ensures Quotient(a, b).value.h * b.h <= a.h < (Quotient(a, b).value.h + 1) * b.h
    ensures Quotient(a, b).value.s * b.s <= a.s < (Quotient(a, b).value.s + 1) * b.s
    ensures Quotient(a, b).value.l * b.l <= a.l < (Quotient(a, b).value.l + 1) * b.l
  {
    TruncDivBrackets(a.h, b.h);
    TruncDivBrackets(a.s, b.s);
    TruncDivBrackets(a.l, b.l);
  }

  /** Unary minus is an involution and is subtraction from white. */
  lemma NegationInvolution(c: Hsl24Color)
    ensures Negation(Negation(c)) == c
    ensures Negation(c) == Difference(Uniform(255), c)
  {
  }

  /** `Difference` is symmetric and is zero exactly between equal colours. */
  lemma DistanceSymmetric(a: Hsl24Color, b: Hsl24Color)
    ensures Distance(a, b) == Distance(b, a)
    ensures Distance(a, b) == Uniform(0) <==> a == b
  {
  }
}
