/** Color32 (ColourLib/Color32.cs): an RGBA colour of four byte channels,
    its clamping `int` setters, its indexer, and its hex codec. */
module Color32Codec {
  import opened CSharpInt
  import opened Results
  import opened ChannelPolicy
  import opened HexDigits

  /** The byte constructor (alpha defaulting to 255) and the R, G, B and A
      setters store their bytes unchanged: the datatype constructor and
      record update model them. */
  datatype Color32 = Color32(r: Byte, g: Byte, b: Byte, a: Byte)

  /** The channels in indexer order. */
  function Channels(c: Color32): seq<Byte>
  {
    [c.r, c.g, c.b, c.a]
  }

  // ---------------------------------------------------------------------
  // The `int` setters and the `int` constructor

  function SetR32(c: Color32, value: Int32): (d: Color32)
    ensures d.r == ClampByte(value) && d.g == c.g && d.b == c.b && d.a == c.a
  {
    c.(r := ClampByte(value))
  }

  function SetG32(c: Color32, value: Int32): (d: Color32)
    ensures d.g == ClampByte(value) && d.r == c.r && d.b == c.b && d.a == c.a
  {
    c.(g := ClampByte(value))
  }

  function SetB32(c: Color32, value: Int32): (d: Color32)
    ensures d.b == ClampByte(value) && d.r == c.r && d.g == c.g && d.a == c.a
  {
    c.(b := ClampByte(value))
  }

  function SetA32(c: Color32, value: Int32): (d: Color32)
    ensures d.a == ClampByte(value) && d.r == c.r && d.g == c.g && d.b == c.b
  {
    c.(a := ClampByte(value))
  }

  /** `new Color32(int r, int g, int b, int a = 255)`: every channel goes
      through its clamping setter. */
  method FromInts(r: Int32, g: Int32, b: Int32, a: Int32) returns (c: Color32)
    ensures c.r == Clamp(r, 0, 255) && c.g == Clamp(g, 0, 255)
    ensures c.b == Clamp(b, 0, 255) && c.a == Clamp(a, 0, 255)
  {
    c := Color32(0, 0, 0, 0);
    c := SetR32(c, r);
    c := SetG32(c, g);
    c := SetB32(c, b);
    c := SetA32(c, a);
  }

  // ---------------------------------------------------------------------
  // Indexer, Max, Min, Equals

  /** The indexer's getter: r, g, b, a for 0..3. */
  function Get(c: Color32, i: Int32): (r: Result<Byte>)
    ensures r.Ok? <==> 0 <= i < 4
    ensures r.Throws? ==> r.exception == IndexOutOfRange
    ensures r.Ok? ==> r.value == Channels(c)[i]
  {
    if i == 0 then Ok(c.r)
    else if i == 1 then Ok(c.g)
    else if i == 2 then Ok(c.b)
    else if i == 3 then Ok(c.a)
    else Throws(IndexOutOfRange)
  }

  /** The indexer's setter: a write stores the byte in channel i and leaves
      the other three alone. */
  function Set(c: Color32, i: Int32, value: Byte): (r: Result<Color32>)
    ensures r.Ok? <==> 0 <= i < 4
    ensures r.Throws? ==> r.exception == IndexOutOfRange
    ensures r.Ok? ==> Get(r.value, i) == Ok(value)
    ensures r.Ok? ==> forall j: Int32 :: 0 <= j < 4 && j != i ==> Get(r.value, j) == Get(c, j)
  {
    if i == 0 then Ok(c.(r := value))
    else if i == 1 then Ok(c.(g := value))
    else if i == 2 then Ok(c.(b := value))
    else if i == 3 then Ok(c.(a := value))
    else Throws(IndexOutOfRange)
  }

  /** `Max(compareAlpha)`; the parameterless `Max()` is `Max(false)`. */
  function Max(c: Color32, compareAlpha: bool): (m: Byte)
    ensures m == c.r || m == c.g || m == c.b || (compareAlpha && m == c.a)
    ensures c.r <= m && c.g <= m && c.b <= m
    ensures compareAlpha ==> c.a <= m
  {
    if compareAlpha then Larger(c.r, Larger(c.g, Larger(c.b, c.a)))
    else Larger(c.r, Larger(c.g, c.b))
  }

  /** `Min(compareAlpha)`; the parameterless `Min()` is `Min(false)`. */
  function Min(c: Color32, compareAlpha: bool): (m: Byte)
    ensures m == c.r || m == c.g || m == c.b || (compareAlpha && m == c.a)
    ensures m <= c.r && m <= c.g && m <= c.b
    ensures compareAlpha ==> m <= c.a
  {
    if compareAlpha then Smaller(c.r, Smaller(c.g, Smaller(c.b, c.a)))
    else Smaller(c.r, Smaller(c.g, c.b))
  }

  function Equals(c: Color32, color: Color32): (eq: bool)
    ensures eq <==> c == color
  {
    color.r == c.r && color.g == c.g && color.b == c.b && color.a == c.a
  }

  // ---------------------------------------------------------------------
  // Encoding

  /** A channel as ToHex writes it: `ToString("X")`, padded to two digits. */
  function Hex2(b: Byte): (s: string)
    ensures |s| == 2 && IsUpperHexDigit(s[0]) && IsUpperHexDigit(s[1])
    ensures 16 * DigitValue(s[0]) + DigitValue(s[1]) == b
  {
    [UpperDigit(b / 16), UpperDigit(b % 16)]
  }

  /** What ToHex returns: RRGGBB, followed by AA unless alpha is 255. */
  function Encode(c: Color32): (hex: string)
    ensures |hex| == (if c.a == 255 then 6 else 8)
    ensures forall i :: 0 <= i < |hex| ==> IsUpperHexDigit(hex[i])
  {
    Hex2(c.r) + Hex2(c.g) + Hex2(c.b) + (if c.a == 255 then "" else Hex2(c.a))
  }

  /** `ToHex()`: formats the four channels into an array, pads the one-digit
      entries with a leading zero, and blanks the alpha entry when it is
      255. The static `ToHex(color)` calls it. */
  method ToHex(c: Color32) returns (hex: string)
    ensures hex == Encode(c)
    ensures |hex| == 6 <==> c.a == 255
    ensures Decode(hex) == Ok(c)
  {
    var strs := new string[] [FormatHex(c.r), FormatHex(c.g), FormatHex(c.b), FormatHex(c.a)];
    PadEntries(strs, Channels(c));
    if c.a == 255 {
      strs[3] := "";
    }
    hex := strs[0] + strs[1] + strs[2] + strs[3];
    JoinEntries(c, strs[0], strs[1], strs[2], strs[3]);
  }

  /** ToHex's loop: every one-character entry gets a leading "0", which
      turns the `ToString("X")` of each channel into its two digits. */
  method PadEntries(strs: array<string>, channels: seq<Byte>)
    requires strs.Length == |channels|
    requires forall j :: 0 <= j < strs.Length ==> strs[j] == FormatHex(channels[j])
    modifies strs
    ensures forall j :: 0 <= j < strs.Length ==> strs[j] == Hex2(channels[j])
  {
    for i := 0 to strs.Length
      invariant forall j :: 0 <= j < i ==> strs[j] == Hex2(channels[j])
      invariant forall j :: i <= j < strs.Length ==> strs[j] == FormatHex(channels[j])
    {
      PaddedFormat(channels[i]);
      if |strs[i]| == 1 {
        strs[i] := "0" + strs[i];
      }
    }
  }

  /** The four entries ToHex joins spell Encode, which decodes back. */
  lemma JoinEntries(c: Color32, r: string, g: string, b: string, a: string)
    requires r == Hex2(c.r) && g == Hex2(c.g) && b == Hex2(c.b)
    requires a == if c.a == 255 then "" else Hex2(c.a)
    ensures r + g + b + a == Encode(c)
    ensures Decode(r + g + b + a) == Ok(c)
  {
    DecodeEncode(c);
  }

  /** Padding a one-digit `ToString("X")` with a leading zero gives the two
      digits of the byte. */
  lemma PaddedFormat(b: Byte)
    ensures (if |FormatHex(b)| == 1 then "0" + FormatHex(b) else FormatHex(b)) == Hex2(b)
  {
  }

  // ---------------------------------------------------------------------
  // Decoding

  /** The string after one optional leading '#'. */
  function Body(hex: string): string
  {
    if |hex| > 0 && hex[0] == '#' then hex[1..] else hex
  }

  /** A shorthand digit duplicated into a full byte: 17 times its value. */
  function Twice(c: char): Byte
    requires IsHexDigit(c)
  {
    17 * DigitValue(c)
  }

  /** Two digits read as one byte. */
  function Pair(hi: char, lo: char): Byte
    requires IsHexDigit(hi) && IsHexDigit(lo)
  {
    16 * DigitValue(hi) + DigitValue(lo)
  }

  /** What the hex constructor and FromHex produce, stated on the digits:
      the empty string fails on `hex[0]`, the parse fails on an empty or
      non-hex body or one above uint.MaxValue, and the length decides the
      rest. */
  function Decode(hex: string): (r: Result<Color32>)
    ensures r.Ok? <==> |hex| > 0 && AllHexDigits(Body(hex)) && |Body(hex)| in {3, 4, 6, 8}
    ensures |hex| == 0 ==> r == Throws(IndexOutOfRange)
    ensures |hex| > 0 && (Body(hex) == [] || !AllHexDigits(Body(hex))) ==> r == Throws(Format)
    ensures (|hex| > 0 && AllHexDigits(Body(hex)) && Body(hex) != [] && |Body(hex)| !in {3, 4, 6, 8})
              ==> r == (if |SignificantDigits(Body(hex))| > 8 then Throws(Overflow) else Throws(Argument))
    ensures r.Ok? && |Body(hex)| in {3, 6} ==> r.value.a == 255
  {
    if |hex| == 0 then Throws(IndexOutOfRange)
    else
      var s := Body(hex);
      if s == [] || !AllHexDigits(s) then Throws(Format)
      else if |SignificantDigits(s)| > 8 then Throws(Overflow)
      else DecodeDigits(s)
  }

  /** Decoding overflows exactly when the body denotes a number above
      uint.MaxValue. */
  lemma DecodeOverflow(hex: string)
    requires |hex| > 0 && AllHexDigits(Body(hex))
    ensures Decode(hex) == Throws(Overflow) <==> Body(hex) != [] && HexValue(Body(hex)) > 0xFFFF_FFFF
  {
    OverflowIsAboveMax(Body(hex));
  }

  /** The length dispatch on a parsed body: 3 and 4 digits are shorthand
      (each digit doubled into a byte), 6 and 8 are full bytes, and 3 and 6
      mean an opaque colour. */
  function DecodeDigits(s: string): (r: Result<Color32>)
    requires AllHexDigits(s)
    ensures r.Ok? <==> |s| in {3, 4, 6, 8}
    ensures r.Throws? ==> r.exception == Argument
  {
    if |s| == 3 then Ok(Color32(Twice(s[0]), Twice(s[1]), Twice(s[2]), 255))
    else if |s| == 4 then Ok(Color32(Twice(s[0]), Twice(s[1]), Twice(s[2]), Twice(s[3])))
    else if |s| == 6 then Ok(Color32(Pair(s[0], s[1]), Pair(s[2], s[3]), Pair(s[4], s[5]), 255))
    else if |s| == 8 then Ok(Color32(Pair(s[0], s[1]), Pair(s[2], s[3]), Pair(s[4], s[5]), Pair(s[6], s[7])))
    else Throws(Argument)
  }

  /** `new Color32(string hex)` and the static `FromHex(hex)`: strips one
      '#' and parses the rest as a uint; SplitChannels does the rest. */
  method FromHex(hex: string) returns (r: Result<Color32>)
    ensures r == Decode(hex)
  {
    if |hex| == 0 {
      return Throws(IndexOutOfRange);
    }
    var s := hex;
    if s[0] == '#' {
      s := s[1..];
    }
    var parsed := ParseHexUInt32(s);
    if parsed.Throws? {
      return Throws(parsed.exception);
    }
    r := SplitChannels(s, parsed.value);
  }

  /** The switch on the length of the hex constructor; each case stores
      the source's masks and shifts through the R, G, B and A setters of a
      zeroed colour. */
  method SplitChannels(s: string, hexInt: bv32) returns (r: Result<Color32>)
    requires AllHexDigits(s) && hexInt == ShiftIn(Nibbles(s))
    ensures r == DecodeDigits(s)
  {
    var c: Color32;
    if |s| == 3 {
      c := Split3(s, hexInt);
    } else if |s| == 4 {
      c := Split4(s, hexInt);
    } else if |s| == 6 {
      c := Split6(s, hexInt);
    } else if |s| == 8 {
      c := Split8(s, hexInt);
    } else {
      return Throws(Argument);
    }
    r := Ok(c);
  }

  method Split3(s: string, hexInt: bv32) returns (c: Color32)
    requires |s| == 3 && AllHexDigits(s) && hexInt == ShiftIn(Nibbles(s))
    ensures c == Color32(Twice(s[0]), Twice(s[1]), Twice(s[2]), 255)
  {
    ShorthandBits3(s, hexInt);
    c := Color32(0, 0, 0, 0);
    c := c.(r := LowByte(((hexInt & 0x0000_0F00) | ((hexInt & 0x0000_0F00) << 4)) >> 8));
    c := c.(g := LowByte(((hexInt & 0x0000_00F0) | ((hexInt & 0x0000_00F0) << 4)) >> 4));
    c := c.(b := LowByte((hexInt & 0x0000_000F) | ((hexInt & 0x0000_000F) << 4)));
    c := c.(a := 255);
  }

  method Split4(s: string, hexInt: bv32) returns (c: Color32)
    requires |s| == 4 && AllHexDigits(s) && hexInt == ShiftIn(Nibbles(s))
    ensures c == Color32(Twice(s[0]), Twice(s[1]), Twice(s[2]), Twice(s[3]))
  {
    ShorthandBits4(s, hexInt);
    c := Color32(0, 0, 0, 0);
    c := c.(r := LowByte(((hexInt & 0x0000_F000) | ((hexInt & 0x0000_F000) << 4)) >> 12));
    c := c.(g := LowByte(((hexInt & 0x0000_0F00) | ((hexInt & 0x0000_0F00) << 4)) >> 8));
    c := c.(b := LowByte(((hexInt & 0x0000_00F0) | ((hexInt & 0x0000_00F0) << 4)) >> 4));
    c := c.(a := LowByte((hexInt & 0x0000_000F) | ((hexInt & 0x0000_000F) << 4)));
  }

  method Split6(s: string, hexInt: bv32) returns (c: Color32)
    requires |s| == 6 && AllHexDigits(s) && hexInt == ShiftIn(Nibbles(s))
    ensures c == Color32(Pair(s[0], s[1]), Pair(s[2], s[3]), Pair(s[4], s[5]), 255)
  {
    FullBits6(s, hexInt);
    c := Color32(0, 0, 0, 0);
    c := c.(r := LowByte((hexInt & 0x00FF_0000) >> 16));
    c := c.(g := LowByte((hexInt & 0x0000_FF00) >> 8));
    c := c.(b := LowByte(hexInt & 0x0000_00FF));
    c := c.(a := 255);
  }

  method Split8(s: string, hexInt: bv32) returns (c: Color32)
    requires |s| == 8 && AllHexDigits(s) && hexInt == ShiftIn(Nibbles(s))
    ensures c == Color32(Pair(s[0], s[1]), Pair(s[2], s[3]), Pair(s[4], s[5]), Pair(s[6], s[7]))
  {
    FullBits8(s, hexInt);
    c := Color32(0, 0, 0, 0);
    c := c.(r := LowByte((hexInt & 0xFF00_0000) >> 24));
    c := c.(g := LowByte((hexInt & 0x00FF_0000) >> 16));
    c := c.(b := LowByte((hexInt & 0x0000_FF00) >> 8));
    c := c.(a := LowByte(hexInt & 0x0000_00FF));
  }

  // The masks and shifts of the hex constructor, proved one layer at a
  // time: first on the nibbles of the parsed value, then on the bytes.

  /** Two nibbles read as the byte their digits denote. */
  lemma PairValue(hi: char, lo: char, a: bv32, b: bv32)
    requires IsHexDigit(hi) && IsHexDigit(lo) && a == Nibble(hi) && b == Nibble(lo)
    ensures LowByte((a << 4) | b) == Pair(hi, lo)
  {
    NibblePair(a, b);
  }

  /** A nibble written twice reads as its digit doubled. */
  lemma TwiceValue(c: char, a: bv32)
    requires IsHexDigit(c) && a == Nibble(c)
    ensures LowByte((a << 4) | a) == Twice(c)
  {
    NibblePair(a, a);
  }

  /** The shorthand masks: each 4-bit field `f` is spread to `f | f << 4`. */
  lemma SpreadNibbles(x: bv32, p: bv32, q: bv32, r: bv32, a: bv32, b: bv32, c: bv32, d: bv32)
    requires x & 0xF == d && x >> 4 == p & 0x0FFF_FFFF
    requires p & 0xF == c && p >> 4 == q & 0x0FFF_FFFF
    requires q & 0xF == b && q >> 4 == r & 0x0FFF_FFFF
    requires r & 0xF == a
    ensures (x & 0x0000_000F) | ((x & 0x0000_000F) << 4) == (d << 4) | d
    ensures ((x & 0x0000_00F0) | ((x & 0x0000_00F0) << 4)) >> 4 == (c << 4) | c
    ensures ((x & 0x0000_0F00) | ((x & 0x0000_0F00) << 4)) >> 8 == (b << 4) | b
    ensures ((x & 0x0000_F000) | ((x & 0x0000_F000) << 4)) >> 12 == (a << 4) | a
  {
  }

  /** The full-form masks: each 8-bit field is moved down to the low byte. */
  lemma ExtractPairs(x: bv32, p: bv32, q: bv32, r: bv32)
    requires x >> 8 == p & 0x00FF_FFFF && p >> 8 == q & 0x00FF_FFFF && q >> 8 == r & 0x00FF_FFFF
    ensures (x & 0x0000_FF00) >> 8 == p & 0xFF
    ensures (x & 0x00FF_0000) >> 16 == q & 0xFF
    ensures (x & 0xFF00_0000) >> 24 == r & 0xFF
  {
  }

  lemma ShorthandNibbles3(ns: seq<bv32>, x: bv32)
    requires |ns| == 3 && AllNibbles(ns) && x == ShiftIn(ns)
    ensures ((x & 0x0000_0F00) | ((x & 0x0000_0F00) << 4)) >> 8 == (ns[0] << 4) | ns[0]
    ensures ((x & 0x0000_00F0) | ((x & 0x0000_00F0) << 4)) >> 4 == (ns[1] << 4) | ns[1]
    ensures (x & 0x0000_000F) | ((x & 0x0000_000F) << 4) == (ns[2] << 4) | ns[2]
  {
    var p, q, r := ShiftIn(ns[..2]), ShiftIn(ns[..1]), ShiftIn(ns[..0]);
    assert ns[..3] == ns;
    NibbleLevel(ns, 3, x, p);
    NibbleLevel(ns, 2, p, q);
    NibbleLevel(ns, 1, q, r);
    SpreadNibbles(x, p, q, r, 0, ns[0], ns[1], ns[2]);
  }

  /** The 3-digit masks and shifts double each digit. */
  lemma ShorthandBits3(s: string, x: bv32)
    requires |s| == 3 && AllHexDigits(s) && x == ShiftIn(Nibbles(s))
    ensures LowByte(((x & 0x0000_0F00) | ((x & 0x0000_0F00) << 4)) >> 8) == Twice(s[0])
    ensures LowByte(((x & 0x0000_00F0) | ((x & 0x0000_00F0) << 4)) >> 4) == Twice(s[1])
    ensures LowByte((x & 0x0000_000F) | ((x & 0x0000_000F) << 4)) == Twice(s[2])
  {
    var ns := Nibbles(s);
    ShorthandNibbles3(ns, x);
    TwiceValue(s[0], ns[0]);
    TwiceValue(s[1], ns[1]);
    TwiceValue(s[2], ns[2]);
  }

  lemma ShorthandNibbles4(ns: seq<bv32>, x: bv32)
    requires |ns| == 4 && AllNibbles(ns) && x == ShiftIn(ns)
    ensures ((x & 0x0000_F000) | ((x & 0x0000_F000) << 4)) >> 12 == (ns[0] << 4) | ns[0]
    ensures ((x & 0x0000_0F00) | ((x & 0x0000_0F00) << 4)) >> 8 == (ns[1] << 4) | ns[1]
    ensures ((x & 0x0000_00F0) | ((x & 0x0000_00F0) << 4)) >> 4 == (ns[2] << 4) | ns[2]
    ensures (x & 0x0000_000F) | ((x & 0x0000_000F) << 4) == (ns[3] << 4) | ns[3]
  {
    var p, q, r := ShiftIn(ns[..3]), ShiftIn(ns[..2]), ShiftIn(ns[..1]);
    assert ns[..4] == ns;
    NibbleLevel(ns, 4, x, p);
    NibbleLevel(ns, 3, p, q);
    NibbleLevel(ns, 2, q, r);
    NibbleLevel(ns, 1, r, ShiftIn(ns[..0]));
    SpreadNibbles(x, p, q, r, ns[0], ns[1], ns[2], ns[3]);
  }

  /** The 4-digit masks and shifts double each digit. */
  lemma ShorthandBits4(s: string, x: bv32)
    requires |s| == 4 && AllHexDigits(s) && x == ShiftIn(Nibbles(s))
    ensures LowByte(((x & 0x0000_F000) | ((x & 0x0000_F000) << 4)) >> 12) == Twice(s[0])
    ensures LowByte(((x & 0x0000_0F00) | ((x & 0x0000_0F00) << 4)) >> 8) == Twice(s[1])
    ensures LowByte(((x & 0x0000_00F0) | ((x & 0x0000_00F0) << 4)) >> 4) == Twice(s[2])
    ensures LowByte((x & 0x0000_000F) | ((x & 0x0000_000F) << 4)) == Twice(s[3])
  {
    var ns := Nibbles(s);
    ShorthandNibbles4(ns, x);
    TwiceValue(s[0], ns[0]);
    TwiceValue(s[1], ns[1]);
    TwiceValue(s[2], ns[2]);
    TwiceValue(s[3], ns[3]);
  }

  lemma FullNibbles6(ns: seq<bv32>, x: bv32)
    requires |ns| == 6 && AllNibbles(ns) && x == ShiftIn(ns)
    ensures (x & 0x00FF_0000) >> 16 == (ns[0] << 4) | ns[1]
    ensures (x & 0x0000_FF00) >> 8 == (ns[2] << 4) | ns[3]
    ensures x & 0x0000_00FF == (ns[4] << 4) | ns[5]
  {
    var p, q, r := ShiftIn(ns[..4]), ShiftIn(ns[..2]), ShiftIn(ns[..0]);
    assert ns[..6] == ns;
    PairLevel(ns, 6, x, p);
    PairLevel(ns, 4, p, q);
    PairLevel(ns, 2, q, r);
    ExtractPairs(x, p, q, r);
  }

  /** The 6-digit masks and shifts take one digit pair per channel. */
  lemma FullBits6(s: string, x: bv32)
    requires |s| == 6 && AllHexDigits(s) && x == ShiftIn(Nibbles(s))
    ensures LowByte((x & 0x00FF_0000) >> 16) == Pair(s[0], s[1])
    ensures LowByte((x & 0x0000_FF00) >> 8) == Pair(s[2], s[3])
    ensures LowByte(x & 0x0000_00FF) == Pair(s[4], s[5])
  {
    var ns := Nibbles(s);
    FullNibbles6(ns, x);
    PairValue(s[0], s[1], ns[0], ns[1]);
    PairValue(s[2], s[3], ns[2], ns[3]);
    PairValue(s[4], s[5], ns[4], ns[5]);
  }

  lemma FullNibbles8(ns: seq<bv32>, x: bv32)
    requires |ns| == 8 && AllNibbles(ns) && x == ShiftIn(ns)
    ensures (x & 0xFF00_0000) >> 24 == (ns[0] << 4) | ns[1]
    ensures (x & 0x00FF_0000) >> 16 == (ns[2] << 4) | ns[3]
    ensures (x & 0x0000_FF00) >> 8 == (ns[4] << 4) | ns[5]
    ensures x & 0x0000_00FF == (ns[6] << 4) | ns[7]
  {
    var p, q, r := ShiftIn(ns[..6]), ShiftIn(ns[..4]), ShiftIn(ns[..2]);
    assert ns[..8] == ns;
    PairLevel(ns, 8, x, p);
    PairLevel(ns, 6, p, q);
    PairLevel(ns, 4, q, r);
    PairLevel(ns, 2, r, ShiftIn(ns[..0]));
    ExtractPairs(x, p, q, r);
  }

  /** The 8-digit masks and shifts take one digit pair per channel. */
  lemma FullBits8(s: string, x: bv32)
    requires |s| == 8 && AllHexDigits(s) && x == ShiftIn(Nibbles(s))
    ensures LowByte((x & 0xFF00_0000) >> 24) == Pair(s[0], s[1])
    ensures LowByte((x & 0x00FF_0000) >> 16) == Pair(s[2], s[3])
    ensures LowByte((x & 0x0000_FF00) >> 8) == Pair(s[4], s[5])
    ensures LowByte(x & 0x0000_00FF) == Pair(s[6], s[7])
  {
    var ns := Nibbles(s);
    FullNibbles8(ns, x);
    PairValue(s[0], s[1], ns[0], ns[1]);
    PairValue(s[2], s[3], ns[2], ns[3]);
    PairValue(s[4], s[5], ns[4], ns[5]);
    PairValue(s[6], s[7], ns[6], ns[7]);
  }

  // ---------------------------------------------------------------------
  // Properties of the codec

  /** Round trip: decoding what ToHex writes gives back the colour. */
  lemma DecodeEncode(c: Color32)
    ensures Decode(Encode(c)) == Ok(c)
  {
    var hex := Encode(c);
    assert hex[0] != '#' && Body(hex) == hex;
    assert AllHexDigits(hex);
    assert hex[..2] == Hex2(c.r) && hex[2..4] == Hex2(c.g) && hex[4..6] == Hex2(c.b);
    assert Pair(hex[0], hex[1]) == c.r;
    assert Pair(hex[2], hex[3]) == c.g;
    assert Pair(hex[4], hex[5]) == c.b;
    if c.a != 255 {
      assert hex[6..8] == Hex2(c.a);
      assert Pair(hex[6], hex[7]) == c.a;
    }
  }

  /** The same round trip through the '#'-prefixed form. */
  lemma DecodeEncodeWithHash(c: Color32)
    ensures Decode("#" + Encode(c)) == Ok(c)
  {
    var hex := Encode(c);
    assert Body("#" + hex) == hex;
    assert Body(hex) == hex by { assert hex[0] != '#'; }
    DecodeEncode(c);
  }

  /** The other direction: an upper-case RRGGBB string, or an RRGGBBAA one
      whose alpha pair is not FF, is exactly what ToHex writes for its colour. */
  lemma EncodeDecode(hex: string)
    requires |hex| == 6 || (|hex| == 8 && hex[6..] != "FF")
    requires forall i :: 0 <= i < |hex| ==> IsUpperHexDigit(hex[i])
    ensures Decode(hex).Ok? && Encode(Decode(hex).value) == hex
  {
    assert AllHexDigits(hex) by {
      forall i | 0 <= i < |hex| ensures IsHexDigit(hex[i]) {
        assert IsUpperHexDigit(hex[i]);
      }
    }
    var c := FullDigits(hex);
    if |hex| == 8 {
      assert hex[6..] == [hex[6], hex[7]];
      PairBelowFF(hex[6], hex[7]);
    }
    EncodePairs(hex, c);
  }

  /** Any upper-case pair other than FF denotes a byte other than 255. */
  lemma PairBelowFF(hi: char, lo: char)
    requires IsUpperHexDigit(hi) && IsUpperHexDigit(lo) && [hi, lo] != "FF"
    ensures Pair(hi, lo) != 255
  {
  }

  /** Writing back the pairs of an upper-case string gives the string. */
  lemma EncodePairs(hex: string, c: Color32)
    requires |hex| in {6, 8} && AllHexDigits(hex)
    requires forall i :: 0 <= i < |hex| ==> IsUpperHexDigit(hex[i])
    requires c.r == Pair(hex[0], hex[1]) && c.g == Pair(hex[2], hex[3]) && c.b == Pair(hex[4], hex[5])
    requires c.a == if |hex| == 6 then 255 else Pair(hex[6], hex[7])
    requires |hex| == 8 ==> c.a != 255
    ensures Encode(c) == hex
  {
    PairAsHex2(hex[0], hex[1]);
    PairAsHex2(hex[2], hex[3]);
    PairAsHex2(hex[4], hex[5]);
    if |hex| == 8 {
      PairAsHex2(hex[6], hex[7]);
      assert Encode(c) == [hex[0], hex[1]] + [hex[2], hex[3]] + [hex[4], hex[5]] + [hex[6], hex[7]];
    } else {
      assert Encode(c) == [hex[0], hex[1]] + [hex[2], hex[3]] + [hex[4], hex[5]];
    }
  }

  /** A six- or eight-digit string without '#' decodes pair by pair. */
  lemma FullDigits(hex: string) returns (c: Color32)
    requires |hex| in {6, 8} && AllHexDigits(hex) && hex[0] != '#'
    ensures c == Color32(Pair(hex[0], hex[1]), Pair(hex[2], hex[3]), Pair(hex[4], hex[5]),
                         if |hex| == 6 then 255 else Pair(hex[6], hex[7]))
    ensures Decode(hex) == Ok(c)
  {
    assert Body(hex) == hex;
    c := Decode(hex).value;
  }

  /** Two upper-case digits are what Hex2 writes for the byte they denote. */
  lemma PairAsHex2(hi: char, lo: char)
    requires IsUpperHexDigit(hi) && IsUpperHexDigit(lo)
    ensures Hex2(Pair(hi, lo)) == [hi, lo]
  {
    var b := Pair(hi, lo);
    assert b / 16 == DigitValue(hi) && b % 16 == DigitValue(lo);
    UpperDigitOfValue(hi);
    UpperDigitOfValue(lo);
  }

  /** Shorthand is CSS-style digit doubling: RGB decodes as RRGGBB, and
      RGBA as RRGGBBAA. */
  lemma ShorthandDoubles(s: string)
    requires |s| in {3, 4} && AllHexDigits(s)
    ensures |s| == 3 ==> Decode(s) == Decode([s[0], s[0], s[1], s[1], s[2], s[2]])
    ensures |s| == 4 ==> Decode(s) == Decode([s[0], s[0], s[1], s[1], s[2], s[2], s[3], s[3]])
  {
    assert s[0] != '#';
    var t := if |s| == 3 then [s[0], s[0], s[1], s[1], s[2], s[2]]
             else [s[0], s[0], s[1], s[1], s[2], s[2], s[3], s[3]];
    assert t[0] != '#' && Body(t) == t;
    assert AllHexDigits(t);
  }

  /** Worked examples of the codec on concrete strings and colours. */
  lemma Examples()
    ensures Decode("B7BEBF") == Ok(Color32(0xB7, 0xBE, 0xBF, 255))
    ensures Decode("F0F") == Ok(Color32(255, 0, 255, 255))
    ensures Decode("#F0F") == Ok(Color32(255, 0, 255, 255))
    ensures Encode(Color32(0, 0, 0, 255)) == "000000"
    ensures Encode(Color32(0, 0, 0, 128)) == "00000080"
    ensures Decode("") == Throws(IndexOutOfRange)
    ensures Decode("#") == Throws(Format)
    ensures Decode("12345") == Throws(Argument)
  {
    assert Body("B7BEBF") == "B7BEBF";
    assert Body("F0F") == "F0F";
    assert Body("#F0F") == "F0F";
    assert Body("12345") == "12345";
    assert SignificantDigits("12345") == "12345";
  }
}
