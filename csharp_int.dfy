/** The integer semantics of C# that the colour structs of ColourLib rely on:
    the ranges of `byte`, `short` and `int`, the unchecked narrowing casts
    between them (two's-complement wrap-around), `Math.Clamp`, `Math.Abs`,
    and the integer `/` and `%` operators, which truncate toward zero
    (Dafny's own `/` and `%` are Euclidean). */
module CSharpInt {

  type Byte = x: int | 0 <= x < 0x100
  type Short = x: int | -0x8000 <= x < 0x8000
  type Int32 = x: int | -0x8000_0000 <= x < 0x8000_0000

  /** `(byte)x` in an unchecked context: the byte congruent to x modulo 2^8. */
  function ToByte(x: int): (r: Byte)
    ensures (x - r) % 0x100 == 0
    ensures 0 <= x < 0x100 ==> r == x
  {
    x % 0x100
  }

  /** `(short)x` in an unchecked context: the short congruent to x modulo 2^16. */
  function ToShort(x: int): (r: Short)
    ensures (x - r) % 0x1_0000 == 0
    ensures -0x8000 <= x < 0x8000 ==> r == x
  {
    (x + 0x8000) % 0x1_0000 - 0x8000
  }

  /** Unchecked `int` arithmetic: the int congruent to x modulo 2^32. */
  function ToInt32(x: int): (r: Int32)
    ensures (x - r) % 0x1_0000_0000 == 0
    ensures -0x8000_0000 <= x < 0x8000_0000 ==> r == x
  {
    (x + 0x8000_0000) % 0x1_0000_0000 - 0x8000_0000
  }

  /** Two integers congruent modulo 2^8 narrow to the same byte. */
  lemma ToByteCongruent(x: int, y: int)
    requires (x - y) % 0x100 == 0
    ensures ToByte(x) == ToByte(y)
  {
    var k := (x - y) / 0x100;
    assert x == y + k * 0x100;
  }

  /** Two integers congruent modulo 2^16 narrow to the same short. */
  lemma ToShortCongruent(x: int, y: int)
    requires (x - y) % 0x1_0000 == 0
    ensures ToShort(x) == ToShort(y)
  {
    var k := (x - y) / 0x1_0000;
    assert x + 0x8000 == (y + 0x8000) + k * 0x1_0000;
  }

  /** Byte subtraction undoes byte addition, and the other way round. */
  lemma ByteSumDifference(x: Byte, y: Byte, sum: Byte, diff: Byte)
    requires sum == ToByte(x + y) && diff == ToByte(x - y)
    ensures ToByte(sum - y) == x && ToByte(diff + y) == x
  {
    ToByteCongruent(sum - y, x);
    ToByteCongruent(diff + y, x);
  }

  /** Byte multiplication distributes over byte addition. */
  lemma ByteDistributes(x: Byte, y: Byte, z: Byte, sum: Byte, p: Byte, q: Byte)
    requires sum == ToByte(y + z) && p == ToByte(x * y) && q == ToByte(x * z)
    ensures ToByte(x * sum) == ToByte(p + q)
  {
    var k, k1, k2 := (y + z) / 0x100, (x * y) / 0x100, (x * z) / 0x100;
    assert sum == y + z - 0x100 * k;
    assert p == x * y - 0x100 * k1 && q == x * z - 0x100 * k2;
    ScaledSum(x, y, z, k);
    ToByteMultiple(x * sum, p + q, k1 + k2 - x * k);
  }

  lemma ScaledSum(x: int, y: int, z: int, k: int)
    ensures x * (y + z - 0x100 * k) == x * y + x * z - 0x100 * (x * k)
  {
  }

  lemma ToByteMultiple(x: int, y: int, m: int)
    requires x - y == 0x100 * m
    ensures ToByte(x) == ToByte(y)
  {
  }

  /** `Math.Abs` on `int` (every argument in this model is far from int.MinValue). */
  function Abs(x: int): (r: nat)
    ensures r == x || r == -x
  {
    if x < 0 then -x else x
  }

  /** `Math.Max` on integers. */
  function Larger(x: int, y: int): (m: int)
    ensures m == x || m == y
    ensures x <= m && y <= m
  {
    if x < y then y else x
  }

  /** `Math.Min` on integers. */
  function Smaller(x: int, y: int): (m: int)
    ensures m == x || m == y
    ensures m <= x && m <= y
  {
    if y < x then y else x
  }

  /** `Math.Clamp(value, lo, hi)`. */
  function Clamp(value: int, lo: int, hi: int): (r: int)
    requires lo <= hi
    ensures lo <= r <= hi
    ensures lo <= value <= hi ==> r == value
    ensures value < lo ==> r == lo
    ensures hi < value ==> r == hi
  {
    if value < lo then lo else if hi < value then hi else value
  }

  /** C#'s integer `a / n`: the exact quotient rounded toward zero. */
  function TruncDiv(a: int, n: int): (q: int)
    requires n != 0
    ensures Abs(q) == Abs(a) / Abs(n)
    ensures Abs(q) <= Abs(a)
    ensures q > 0 ==> (a > 0) == (n > 0)
    ensures q < 0 ==> (a > 0) != (n > 0)
  {
    NatDivBounds(Abs(a), Abs(n));
    if a == 0 then 0
    else if (a > 0) == (n > 0) then Abs(a) / Abs(n)
    else -(Abs(a) / Abs(n))
  }

  /** C#'s integer `a % n`: the remainder of the truncating division, which
      takes the sign of the dividend. */
  function TruncRem(a: int, n: int): (r: int)
    requires n != 0
    ensures a == TruncDiv(a, n) * n + r
    ensures Abs(r) < Abs(n)
    ensures a > 0 ==> r >= 0
    ensures a < 0 ==> r <= 0
  {
    TruncDivRem(a, n);
    if a >= 0 then a % Abs(n) else -((-a) % Abs(n))
  }

  /** The division identity that ties TruncRem to TruncDiv. */
  lemma TruncDivRem(a: int, n: int)
    requires n != 0
    ensures a == TruncDiv(a, n) * n + (if a >= 0 then a % Abs(n) else -((-a) % Abs(n)))
  {
    var m := Abs(n);
    var q := Abs(a) / m;
    assert Abs(a) == q * m + Abs(a) % m;
    if a == 0 {
    } else if a > 0 && n > 0 {
      assert TruncDiv(a, n) == q;
    } else if a > 0 {
      assert TruncDiv(a, n) == -q && n == -m;
      NegatedProducts(q, m);
    } else if n > 0 {
      assert TruncDiv(a, n) == -q && n == m;
      NegatedProducts(q, m);
    } else {
      assert TruncDiv(a, n) == q && n == -m;
    }
  }

  /** The truncating quotient of a natural number by a positive one
      brackets it: q * n <= a < (q + 1) * n. */
  lemma TruncDivBrackets(a: int, n: int)
    requires a >= 0 && n > 0
    ensures TruncDiv(a, n) * n <= a < (TruncDiv(a, n) + 1) * n
  {
    var q := a / n;
    assert TruncDiv(a, n) == q;
    assert a == q * n + a % n;
    assert (q + 1) * n == q * n + n;
  }

  lemma NegatedProducts(q: int, m: int)
    ensures (-q) * (-m) == q * m && (-q) * m == -(q * m) && q * (-m) == -(q * m)
  {
  }

  /** Euclidean division of a natural number by a positive one lies in [0, a]. */
  lemma NatDivBounds(a: int, n: int)
    requires a >= 0 && n > 0
    ensures 0 <= a / n <= a
  {
    var q := a / n;
    assert a == q * n + a % n && 0 <= a % n < n;
    if q > a {
      ProductAtLeastFactor(q, n);
      assert false;
    }
  }

  lemma ProductAtLeastFactor(q: int, n: int)
    requires q >= 0 && n >= 1
    ensures q * n >= q
  {
    assert q * n == q * (n - 1) + q;
  }
}
