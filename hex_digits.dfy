/** The two .NET calls behind Color32's hex codec, modelled on the inputs the
    codec is about: `uint.Parse(s, NumberStyles.HexNumber)` and
    `byte.ToString("X")`. */
module HexDigits {
  import opened CSharpInt
  import opened Results

  /** The digits NumberStyles.HexNumber accepts, in either case. */
  predicate IsHexDigit(c: char)
  {
    '0' <= c <= '9' || 'A' <= c <= 'F' || 'a' <= c <= 'f'
  }

  predicate AllHexDigits(s: string)
  {
    forall i :: 0 <= i < |s| ==> IsHexDigit(s[i])
  }

  /** An upper-case digit, as `ToString("X")` writes them. */
  predicate IsUpperHexDigit(c: char)
  {
    '0' <= c <= '9' || 'A' <= c <= 'F'
  }

  function DigitValue(c: char): (d: nat)
    requires IsHexDigit(c)
    ensures d < 16
  {
    if c <= '9' then c as int - '0' as int
    else if c <= 'F' then c as int - 'A' as int + 10
    else c as int - 'a' as int + 10
  }

  /** The digit `ToString("X")` writes for a nibble. */
  function UpperDigit(d: nat): (c: char)
    requires d < 16
    ensures IsUpperHexDigit(c) && IsHexDigit(c) && DigitValue(c) == d
  {
    if d < 10 then ('0' as int + d) as char else ('A' as int + d - 10) as char
  }

  /** An upper-case digit is the one UpperDigit writes for its value. */
  lemma UpperDigitOfValue(c: char)
    requires IsUpperHexDigit(c)
    ensures UpperDigit(DigitValue(c)) == c
  {
  }

  /** `b.ToString("X")`: upper-case hex without leading zeros. */
  function FormatHex(b: Byte): (s: string)
    ensures |s| == (if b < 16 then 1 else 2)
  {
    if b < 16 then [UpperDigit(b)] else [UpperDigit(b / 16), UpperDigit(b % 16)]
  }

  /** The digits left after the leading zeros, which decide whether the
      numeral fits 32 bits. */
  function SignificantDigits(s: string): (t: string)
    ensures |t| <= |s|
  {
    if s != [] && s[0] == '0' then SignificantDigits(s[1..]) else s
  }

  /** The significant digits are a suffix of the numeral that does not
      start with a zero. */
  lemma {:induction false} SignificantSuffix(s: string)
    ensures var t := SignificantDigits(s); t == s[|s| - |t|..] && (t == [] || t[0] != '0')
  {
    if s != [] && s[0] == '0' {
      SignificantSuffix(s[1..]);
    }
  }

  /** 16 to the power n. */
  function Pow16(n: nat): (p: nat)
    ensures p >= 1
  {
    if n == 0 then 1 else 16 * Pow16(n - 1)
  }

  lemma Pow16Monotone(m: nat, n: nat)
    requires m <= n
    ensures Pow16(m) <= Pow16(n)
    decreases n
  {
    if m < n {
      Pow16Monotone(m, n - 1);
    }
  }

  /** The number a hex numeral denotes, read from its leading digit. */
  function HexValue(s: string): (v: nat)
    requires AllHexDigits(s)
    ensures v < Pow16(|s|)
    ensures s != [] && s[0] != '0' ==> v >= Pow16(|s| - 1)
  {
    if s == [] then 0
    else
      var d, p := DigitValue(s[0]), Pow16(|s| - 1);
      var v := d * p + HexValue(s[1..]);
      assert d * p <= 15 * p && (s[0] != '0' ==> d >= 1 && d * p >= p) by {
        DigitTimesPower(d, p);
      }
      v
  }

  lemma DigitTimesPower(d: nat, p: nat)
    requires d < 16
    ensures d * p <= 15 * p
    ensures d >= 1 ==> d * p >= p
  {
  }

  /** Appending a digit multiplies the value read so far by 16 and adds it. */
  lemma {:induction false} HexValueAppend(s: string, c: char)
    requires AllHexDigits(s) && IsHexDigit(c)
    ensures AllHexDigits(s + [c]) && HexValue(s + [c]) == 16 * HexValue(s) + DigitValue(c)
  {
    var t := s + [c];
    assert AllHexDigits(t);
    if s != [] {
      assert t[0] == s[0] && t[1..] == s[1..] + [c];
      HexValueAppend(s[1..], c);
      var d, p := DigitValue(s[0]), Pow16(|s| - 1);
      assert Pow16(|t| - 1) == 16 * p;
      ScaledDigit(d, p);
      assert HexValue(t) == d * (16 * p) + HexValue(s[1..] + [c]);
      assert HexValue(s) == d * p + HexValue(s[1..]);
    } else {
      assert t[1..] == [];
    }
  }

  lemma ScaledDigit(d: nat, p: nat)
    ensures d * (16 * p) == 16 * (d * p)
  {
  }

  /** Leading zeros add nothing to the value. */
  lemma {:induction false} SignificantValue(s: string)
    requires AllHexDigits(s)
    ensures AllHexDigits(SignificantDigits(s)) && HexValue(SignificantDigits(s)) == HexValue(s)
  {
    var t := SignificantDigits(s);
    SignificantSuffix(s);
    assert forall i :: 0 <= i < |t| ==> t[i] == s[|s| - |t| + i];
    if s != [] && s[0] == '0' {
      SignificantValue(s[1..]);
    }
  }

  lemma Pow16Eight()
    ensures Pow16(8) == 0x1_0000_0000
  {
    assert Pow16(2) == 0x100;
    assert Pow16(4) == 0x1_0000;
    assert Pow16(6) == 0x100_0000;
  }

  /** The overflow test of the parse, stated on digits, is the test against
      uint.MaxValue: more than eight significant digits is a value of at
      least 2^32. */
  lemma OverflowIsAboveMax(s: string)
    requires AllHexDigits(s)
    ensures |SignificantDigits(s)| > 8 <==> HexValue(s) > 0xFFFF_FFFF
  {
    var t := SignificantDigits(s);
    SignificantSuffix(s);
    SignificantValue(s);
    Pow16Eight();
    if |t| > 8 {
      Pow16Monotone(8, |t| - 1);
    } else {
      Pow16Monotone(|t|, 8);
    }
  }

  /** The 4-bit pattern of one digit. */
  function Nibble(c: char): (n: bv32)
    requires IsHexDigit(c)
    ensures n < 16 && n as int == DigitValue(c)
  {
    // Written as a table over the sixteen values, which keeps the solver
    // away from a general integer-to-bit-vector conversion.
    var d := DigitValue(c);
    if d == 0 then 0
    else if d == 1 then 1
    else if d == 2 then 2
    else if d == 3 then 3
    else if d == 4 then 4
    else if d == 5 then 5
    else if d == 6 then 6
    else if d == 7 then 7
    else if d == 8 then 8
    else if d == 9 then 9
    else if d == 10 then 10
    else if d == 11 then 11
    else if d == 12 then 12
    else if d == 13 then 13
    else if d == 14 then 14
    else 15
  }

  /** The digits of a hex numeral as 4-bit patterns. */
  function Nibbles(s: string): (ns: seq<bv32>)
    requires AllHexDigits(s)
    ensures |ns| == |s| && AllNibbles(ns)
    ensures forall i :: 0 <= i < |s| ==> ns[i] == Nibble(s[i])
  {
    if s == [] then [] else Nibbles(s[..|s| - 1]) + [Nibble(s[|s| - 1])]
  }

  predicate AllNibbles(ns: seq<bv32>)
  {
    forall i :: 0 <= i < |ns| ==> ns[i] < 16
  }

  /** The accumulation `uint.Parse` performs: each digit shifts the value
      read so far four bits up and fills the low nibble. */
  function ShiftIn(ns: seq<bv32>): (x: bv32)
    ensures ns != [] && ns[|ns| - 1] < 16 ==> x & 0xF == ns[|ns| - 1]
  {
    if ns == [] then 0 else (ShiftIn(ns[..|ns| - 1]) << 4) | ns[|ns| - 1]
  }

  /** `uint.Parse(s, NumberStyles.HexNumber)` on strings without white space:
      FormatException for an empty or non-hex string, OverflowException for a
      value above uint.MaxValue. The test is made on the digits: more than
      eight significant ones. */
  function ParseHexUInt32(s: string): (r: Result<bv32>)
    ensures r.Ok? <==> s != [] && AllHexDigits(s) && |SignificantDigits(s)| <= 8
    ensures r.Throws? ==> r.exception == (if s == [] || !AllHexDigits(s) then Format else Overflow)
    ensures r.Ok? ==> r.value == ShiftIn(Nibbles(s))
  {
    if s == [] || !AllHexDigits(s) then Throws(Format)
    else if |SignificantDigits(s)| > 8 then Throws(Overflow)
    else Ok(ShiftIn(Nibbles(s)))
  }

  /** The parse succeeds exactly on the non-empty hex numerals whose value
      fits in a uint, and overflows on the others. */
  lemma ParseInRange(s: string)
    requires s != [] && AllHexDigits(s)
    ensures ParseHexUInt32(s).Ok? <==> HexValue(s) <= 0xFFFF_FFFF
    ensures ParseHexUInt32(s) == Throws(Overflow) <==> HexValue(s) > 0xFFFF_FFFF
  {
    OverflowIsAboveMax(s);
  }

  /** `(byte)x` for a uint: its low eight bits. */
  function LowByte(x: bv32): (b: Byte)
    ensures b == (x & 0xFF) as int
    ensures x & 0xFF == x ==> b == x as int
  {
    ((x & 0xFF) as bv8) as int
  }

  /** Two nibbles side by side read as the byte 16 * hi + lo. */
  lemma NibblePair(hi: bv32, lo: bv32)
    requires hi < 16 && lo < 16
    ensures LowByte((hi << 4) | lo) == 16 * (hi as int) + lo as int
  {
  }

  // The lemmas below name every bit pattern they reason about by a
  // variable tied to ShiftIn by a precondition; this keeps each proof
  // obligation to a handful of bit-vector facts.

  /** Reading digit k shifts the pattern of the first k digits. */
  lemma ShiftInStep(ns: seq<bv32>, k: nat, x: bv32, p: bv32, n: bv32)
    requires k < |ns|
    requires x == ShiftIn(ns[..k + 1]) && p == ShiftIn(ns[..k]) && n == ns[k]
    ensures x == (p << 4) | n
  {
    assert ns[..k + 1][..k] == ns[..k];
  }

  lemma LowNibbleBits(x: bv32, p: bv32, a: bv32)
    requires a < 16 && x == (p << 4) | a
    ensures x & 0xF == a
    ensures x >> 4 == p & 0x0FFF_FFFF
  {
  }

  /** The low nibble of the first k digits is digit k - 1, and the rest is
      the pattern of the first k - 1 digits. */
  lemma NibbleLevel(ns: seq<bv32>, k: nat, x: bv32, p: bv32)
    requires 1 <= k <= |ns| && AllNibbles(ns)
    requires x == ShiftIn(ns[..k]) && p == ShiftIn(ns[..k - 1])
    ensures x & 0xF == ns[k - 1]
    ensures x >> 4 == p & 0x0FFF_FFFF
  {
    var a := ns[k - 1];
    ShiftInStep(ns, k - 1, x, p, a);
    LowNibbleBits(x, p, a);
  }

  lemma LowPairBits(x: bv32, q: bv32, p: bv32, a: bv32, b: bv32)
    requires a < 16 && b < 16 && x == (q << 4) | b && q == (p << 4) | a
    ensures x & 0xFF == (a << 4) | b
    ensures x >> 8 == p & 0x00FF_FFFF
  {
  }

  /** The low byte of the first k digits is digits k - 2 and k - 1, and the
      rest is the pattern of the first k - 2 digits. */
  lemma PairLevel(ns: seq<bv32>, k: nat, x: bv32, p: bv32)
    requires 2 <= k <= |ns| && AllNibbles(ns)
    requires x == ShiftIn(ns[..k]) && p == ShiftIn(ns[..k - 2])
    ensures x & 0xFF == (ns[k - 2] << 4) | ns[k - 1]
    ensures x >> 8 == p & 0x00FF_FFFF
  {
    var a, b := ns[k - 2], ns[k - 1];
    var q := ShiftIn(ns[..k - 1]);
    ShiftInStep(ns, k - 1, x, q, b);
    ShiftInStep(ns, k - 2, q, p, a);
    LowPairBits(x, q, p, a, b);
  }
}
