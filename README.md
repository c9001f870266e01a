# ColourLib integer colour types in Dafny

This project models the exact, integer-valued colour types of ColourLib:

- `Color32`: four byte channels (RGBA). It has clamping `int` setters, an indexer, `Max`/`Min`/`Equals`, and a hex codec: the hex constructor, `FromHex` and `ToHex`.
- `Hsl32Color` and `Hsv32Color`: the 32-scale types.
  - The hue is a `short` in degrees. Its setters store `value % 360` with C#'s truncated remainder, so a negative hue stays negative.
  - Saturation and lightness (or value) are byte percentages, clamped to [0,100].
  - The operators `+ - * /` (colour and `int` forms), unary `-`, `Difference` and the indexer are all modelled.
- `HSL24Color` and `HSV24Color`: three plain byte channels.
  - The `int` setters clamp to [0,255].
  - The operators act on each channel as byte arithmetic.
  - Negation is `255 - x`; `Difference` is the absolute difference.

C# integer semantics are written out in module `CSharpInt`:

- the unchecked narrowing casts `(byte)`, `(short)` and unchecked `int` arithmetic, as two's-complement wrap-around;
- `/` and `%`, which truncate toward zero;
- `Math.Clamp`, `Math.Max`, `Math.Min` and `Math.Abs`.

A compound assignment on a property, such as `left.S -= right.s`, first narrows the arithmetic result to the property's type and only then runs the setter. Module `Scale32Channels` composes those two steps for the 32-scale types.

Each core file takes the following form:

- **Structs** become datatypes.
- **Setters and indexers** become functions that return the updated colour.
- **Operators, constructors and `Difference`** become methods. They copy the struct and overwrite one channel at a time, as the source does.
  - The binary operators, the `int` constructors, the Hsl32 byte constructor and `Difference` write through the setters. Unary `-` writes the fields directly, bypassing the setters, as the source does.
  - Every operator and `Difference` method is proved equal to a specification function (`Sum`, `Difference`, `Product`, `Quotient`, `Negation`, `Distance`).
  - The constructors (`FromBytes`, `FromInts`, `FromShortAndBytes`) have no specification function: their ensures state each resulting field directly.
  - The properties are proved about the specification functions: the channel policy, involution, inverses, symmetry, exact division.
- **`ToHex`** keeps its `string[]` and its padding loop.
- **The hex constructor** keeps its `uint` masks and shifts on a `bv32`. Both are proved against `Decode`/`Encode`, and those two are proved to be inverses.

Three behaviours of the code are easy to miss:

- An empty hex string fails at `hex[0]` with `IndexOutOfRangeException` instead of giving opaque black.
- The 32-scale hue wrap keeps the sign of its input instead of giving a non-negative residue.
- An unsupported length raises `ArgumentException`, which the model calls `Argument`.

## Model

| member | source | states |
|---|---|---|
| CSharpInt.ToByte | ColourLib/Hsl32Color.cs:156-158 | `(byte)x` is the byte congruent to x modulo 256, and the identity on bytes |
| CSharpInt.ToShort | ColourLib/Hsl32Color.cs:156 | `(short)x` is the short congruent to x modulo 65536, and the identity on shorts |
| CSharpInt.ToInt32 | ColourLib/Hsl32Color.cs:163-165 | unchecked `int` arithmetic is the int congruent to x modulo 2^32 |
| CSharpInt.ToByteCongruent | ColourLib/Hsl32Color.cs:170-172 | numbers congruent modulo 256 narrow to the same byte |
| CSharpInt.ToShortCongruent | ColourLib/Hsl32Color.cs:170 | numbers congruent modulo 65536 narrow to the same short |
| CSharpInt.ByteSumDifference | ColourLib/HSL24Color.cs:144-171 | byte subtraction undoes byte addition, and the other way round |
| CSharpInt.ByteDistributes | ColourLib/HSL24Color.cs:144-178 | byte multiplication distributes over byte addition, wrap-around included: x*(y+z) and x*y + x*z narrow to the same byte |
| CSharpInt.Abs | ColourLib/Hsl32Color.cs:86-88 | `Math.Abs` gives x or -x, and never a negative number |
| CSharpInt.Larger | ColourLib/Hsl32Color.cs:151 | `Math.Max` is one of its arguments and at least both |
| CSharpInt.Smaller | ColourLib/Hsl32Color.cs:152 | `Math.Min` is one of its arguments and at most both |
| CSharpInt.Clamp | ColourLib/Color32.cs:35 | `Math.Clamp` lies in [lo,hi], is the identity inside, and is lo below and hi above |
| CSharpInt.TruncDiv | ColourLib/Hsl32Color.cs:205-214 | integer `/` has magnitude abs(a)/abs(n), and its sign is positive exactly when the operands' signs agree |
| CSharpInt.TruncRem | ColourLib/Hsl32Color.cs:13 | integer `%` satisfies a == (a/n)*n + r, with abs(r) < abs(n) and r taking the dividend's sign |
| CSharpInt.TruncDivRem | ColourLib/Hsl32Color.cs:13 | the division identity linking the truncated quotient and remainder |
| CSharpInt.TruncDivBrackets | ColourLib/HSL24Color.cs:186-199 | for a >= 0 and n > 0, q*n <= a < (q+1)*n where q = a/n |
| CSharpInt.NatDivBounds | ColourLib/HSL24Color.cs:186-199 | dividing a natural number by a positive one gives a result in [0, a] |
| ChannelPolicy.WrapHue | ColourLib/Hsl32Color.cs:10-29 | `(short)(value % 360)` is congruent to value mod 360, lies in (-360,360), has value's sign, is in [0,360) for non-negative input, and is the identity inside (-360,360) |
| ChannelPolicy.WrappedHueUnique | ColourLib/Hsl32Color.cs:13 | at most one hue satisfies the wrap description, so IsWrappedHue determines WrapHue |
| ChannelPolicy.ClampPercent | ColourLib/Hsl32Color.cs:15-39 | `(byte)Math.Clamp(value,0,100)` is at most 100, equals value inside [0,100], is 0 below and 100 above |
| ChannelPolicy.ClampByte | ColourLib/Color32.cs:32-51 | `(byte)Math.Clamp(value,0,255)` equals value on bytes, is 0 below and 255 above |
| Scale32Channels.HueAfter | ColourLib/Hsl32Color.cs:154-188 | `H op= y` narrows to short and then wraps; without short overflow the result is the wrapped hue of the exact value |
| Scale32Channels.PercentAfter | ColourLib/Hsl32Color.cs:154-188 | `S op= y` narrows to byte and then clamps: exact on [0,100], 100 on (100,256) and on [-156,0) (underflow), and x-256 on [256,356] |
| Scale32Channels.HueAfterInt | ColourLib/Hsl32Color.cs:161-216 | `H32 op= n` wraps as unchecked int and then as a hue; without int overflow it is the wrapped exact value |
| Scale32Channels.PercentAfterInt | ColourLib/Hsl32Color.cs:161-216 | `S32 op= n` clamps to [0,100] the exact value whenever it fits an int |
| Scale32Channels.HueDistance | ColourLib/Hsl32Color.cs:84-97 | the `Difference` hue is abs(h-h') modulo 256, and is abs(h-h') itself below 256 |
| Scale32Channels.PercentDistance | ColourLib/Hsl32Color.cs:84-97 | the `Difference` percentage is min(abs(p-p'), 100) |
| Scale32Channels.NegatedHue | ColourLib/Hsl32Color.cs:226 | `(short)(360 - h)` is 360 - h unless that overflows a short |
| Scale32Channels.NegatedPercent | ColourLib/Hsl32Color.cs:227-228 | `(byte)(100 - p)` is 100 - p on percentages |
| Scale32Channels.NegatedHueInvolution | ColourLib/Hsl32Color.cs:226 | negating any short hue twice gives it back, wrap-around included |
| Scale32Channels.NegatedPercentInvolution | ColourLib/Hsl32Color.cs:227-228 | negating any byte percentage twice gives it back |
| Scale32Channels.NarrowingExamples | ColourLib/Hsl32Color.cs:184-187 | 200*200 overflows a short, so the hue is -336 and not 40000 % 360 = 40; 16*16 wraps to 0; 10-20 underflows to 100 |
| HexDigits.DigitValue | ColourLib/Color32.cs:112 | a hex digit denotes a value below 16 |
| HexDigits.UpperDigit | ColourLib/Color32.cs:153 | the digit `ToString("X")` writes is upper-case and denotes its nibble |
| HexDigits.UpperDigitOfValue | ColourLib/Color32.cs:153 | an upper-case digit is the one written for its value |
| HexDigits.FormatHex | ColourLib/Color32.cs:153 | `ToString("X")` of a byte has one digit below 16 and two otherwise |
| HexDigits.SignificantDigits | ColourLib/Color32.cs:112 | stripping leading zeros never lengthens the numeral |
| HexDigits.SignificantSuffix | ColourLib/Color32.cs:112 | the significant digits are a suffix of the numeral, and are empty or start with a non-zero digit |
| HexDigits.HexValue | ColourLib/Color32.cs:112 | the number an n-digit hex numeral denotes is below 16^n, and at least 16^(n-1) when its leading digit is not 0 |
| HexDigits.HexValueAppend | ColourLib/Color32.cs:112 | appending a digit multiplies the value read so far by 16 and adds the digit |
| HexDigits.SignificantValue | ColourLib/Color32.cs:112 | leading zeros do not change the value of a numeral |
| HexDigits.OverflowIsAboveMax | ColourLib/Color32.cs:112 | a numeral has more than eight significant digits exactly when its value exceeds uint.MaxValue |
| HexDigits.Nibble | ColourLib/Color32.cs:112 | a digit's 4-bit pattern is below 16 and equals its value |
| HexDigits.Nibbles | ColourLib/Color32.cs:112 | the nibble sequence has one 4-bit pattern per digit |
| HexDigits.ShiftIn | ColourLib/Color32.cs:112 | the digit shifted in last becomes the low nibble of the accumulated value |
| HexDigits.ParseHexUInt32 | ColourLib/Color32.cs:112 | `uint.Parse(s, HexNumber)` succeeds iff s is a non-empty hex numeral of at most 8 significant digits; otherwise it throws FormatException or OverflowException; its value shifts in one nibble per digit |
| HexDigits.ParseInRange | ColourLib/Color32.cs:112 | on a non-empty hex numeral, the parse succeeds exactly when its value is at most uint.MaxValue, and throws OverflowException exactly when it is above |
| HexDigits.LowByte | ColourLib/Color32.cs:116-141 | `(byte)x` is the number held in the low eight bits of x, and is x itself when x has no higher bits |
| HexDigits.NibblePair | ColourLib/Color32.cs:116-141 | two nibbles side by side read as the byte 16*hi + lo |
| HexDigits.NibbleLevel | ColourLib/Color32.cs:116-126 | the low nibble of a parsed prefix is its last digit, and shifting it out leaves the prefix before it |
| HexDigits.PairLevel | ColourLib/Color32.cs:130-140 | the low byte of a parsed prefix is its last two digits, and shifting it out leaves the prefix before them |
| Color32Codec.SetR32 | ColourLib/Color32.cs:32-36 | `R32 = value` stores clamp(value,0,255) in r and changes nothing else |
| Color32Codec.SetG32 | ColourLib/Color32.cs:37-41 | `G32 = value` stores clamp(value,0,255) in g and changes nothing else |
| Color32Codec.SetB32 | ColourLib/Color32.cs:42-46 | `B32 = value` stores clamp(value,0,255) in b and changes nothing else |
| Color32Codec.SetA32 | ColourLib/Color32.cs:47-51 | `A32 = value` stores clamp(value,0,255) in a and changes nothing else |
| Color32Codec.FromInts | ColourLib/Color32.cs:93-99 | the `int` constructor stores every channel clamped to [0,255] |
| Color32Codec.Get | ColourLib/Color32.cs:52-61 | the indexer reads r,g,b,a for 0..3 and throws IndexOutOfRange for every other index |
| Color32Codec.Set | ColourLib/Color32.cs:62-77 | an indexer write stores the byte in channel i, leaves the other three unchanged, and throws IndexOutOfRange outside 0..3 |
| Color32Codec.Max | ColourLib/Color32.cs:147-150 | `Max` is one of r,g,b (or a when compareAlpha) and at least each of them; alpha is ignored unless compareAlpha |
| Color32Codec.Min | ColourLib/Color32.cs:147-150 | `Min` is one of r,g,b (or a when compareAlpha) and at most each of them; alpha is ignored unless compareAlpha |
| Color32Codec.Equals | ColourLib/Color32.cs:164 | `Equals` holds iff all four channels match |
| Color32Codec.Hex2 | ColourLib/Color32.cs:153-156 | a padded channel is two upper-case digits that denote the byte |
| Color32Codec.Encode | ColourLib/Color32.cs:151-161 | the hex string is 6 digits when a = 255 and 8 otherwise, all upper-case |
| Color32Codec.ToHex | ColourLib/Color32.cs:151-162 | `ToHex` returns Encode(c), its length is 6 iff a = 255, and it decodes back to c |
| Color32Codec.PadEntries | ColourLib/Color32.cs:153-156 | the padding loop turns every `ToString("X")` entry into the channel's two digits |
| Color32Codec.JoinEntries | ColourLib/Color32.cs:157-160 | the joined entries, with alpha blanked when it is 255, are Encode(c) and decode to c |
| Color32Codec.PaddedFormat | ColourLib/Color32.cs:155-156 | a one-digit `ToString("X")` with a "0" in front is the byte's two digits |
| Color32Codec.Decode | ColourLib/Color32.cs:107-146 | decoding succeeds iff the string is non-empty and its body after one optional '#' is 3, 4, 6 or 8 hex digits. Otherwise it throws IndexOutOfRange for "", Format for an empty or non-hex body, Overflow for more than 8 significant digits, and Argument for any other length. Lengths 3 and 6 give alpha 255 |
| Color32Codec.DecodeOverflow | ColourLib/Color32.cs:107-112 | on a hex body, decoding throws Overflow exactly when the body is non-empty and denotes a number above uint.MaxValue |
| Color32Codec.DecodeDigits | ColourLib/Color32.cs:113-145 | the length switch accepts exactly 3, 4, 6 and 8 digits and throws ArgumentException otherwise |
| Color32Codec.FromHex | ColourLib/Color32.cs:107-163 | the hex constructor and `FromHex` return Decode(hex), including each exception |
| Color32Codec.SplitChannels | ColourLib/Color32.cs:113-145 | the switch on the parsed value gives DecodeDigits of the digits |
| Color32Codec.Split3 | ColourLib/Color32.cs:115-120 | the 3-digit masks give R,G,B = 17*digit and A = 255 |
| Color32Codec.Split4 | ColourLib/Color32.cs:122-127 | the 4-digit masks give R,G,B,A = 17*digit |
| Color32Codec.Split6 | ColourLib/Color32.cs:129-134 | the 6-digit masks give RRGGBB with A = 255 |
| Color32Codec.Split8 | ColourLib/Color32.cs:136-141 | the 8-digit masks give RRGGBBAA |
| Color32Codec.ShorthandBits3 | ColourLib/Color32.cs:116-118 | each 3-digit shorthand mask-and-shift yields its digit doubled |
| Color32Codec.ShorthandBits4 | ColourLib/Color32.cs:123-126 | each 4-digit shorthand mask-and-shift yields its digit doubled |
| Color32Codec.FullBits6 | ColourLib/Color32.cs:130-132 | each 6-digit mask-and-shift yields its digit pair |
| Color32Codec.FullBits8 | ColourLib/Color32.cs:137-140 | each 8-digit mask-and-shift yields its digit pair |
| Color32Codec.DecodeEncode | ColourLib/Color32.cs:107-163 | round trip: `FromHex(ToHex(c))` is c for every colour |
| Color32Codec.DecodeEncodeWithHash | ColourLib/Color32.cs:107-161 | the round trip also holds through the '#'-prefixed form |
| Color32Codec.EncodeDecode | ColourLib/Color32.cs:107-161 | the reverse round trip: an upper-case RRGGBB string, or an RRGGBBAA one whose alpha is not FF, is exactly what ToHex writes for its decoded colour |
| Color32Codec.PairBelowFF | ColourLib/Color32.cs:157-158 | an upper-case pair other than FF is a byte other than 255 |
| Color32Codec.EncodePairs | ColourLib/Color32.cs:151-161 | encoding the pairs of an upper-case string rebuilds the string |
| Color32Codec.FullDigits | ColourLib/Color32.cs:129-141 | a 6- or 8-digit string without '#' decodes pair by pair |
| Color32Codec.PairAsHex2 | ColourLib/Color32.cs:153-156 | two upper-case digits are the padded `ToString("X")` of the byte they denote |
| Color32Codec.ShorthandDoubles | ColourLib/Color32.cs:115-141 | RGB decodes as RRGGBB and RGBA as RRGGBBAA, each digit doubled |
| Color32Codec.Examples | ColourLib/Color32.cs:107-161 | B7BEBF gives (183,190,191,255); F0F and #F0F give (255,0,255,255); black encodes as 000000 and half-transparent black as 00000080; "" throws IndexOutOfRange, "#" throws Format and "12345" throws Argument |
| Hsl32.SetH | ColourLib/Hsl32Color.cs:10-29 | `H` and `H32` store the wrapped hue and change nothing else |
| Hsl32.SetS | ColourLib/Hsl32Color.cs:15-34 | `S` and `S32` store clamp(value,0,100) and change nothing else |
| Hsl32.SetL | ColourLib/Hsl32Color.cs:20-39 | `L` and `L32` store clamp(value,0,100) and change nothing else |
| Hsl32.FromBytes | ColourLib/Hsl32Color.cs:64-69 | the byte constructor keeps the hue and clamps s and l, so its result is in policy |
| Hsl32.FromInts | ColourLib/Hsl32Color.cs:70-75 | the `int` constructor wraps the hue and clamps s and l, so its result is in policy |
| Hsl32.Get | ColourLib/Hsl32Color.cs:42-48 | the indexer reads h,s,l for 0..2 and throws IndexOutOfRange otherwise |
| Hsl32.Set | ColourLib/Hsl32Color.cs:49-62 | an indexer write wraps the hue (i = 0) or clamps to [0,100] (i = 1, 2), leaves the other channels unchanged, keeps the policy, and throws IndexOutOfRange outside 0..2 |
| Hsl32.Equals | ColourLib/Hsl32Color.cs:82 | `Equals` holds iff all three fields match |
| Hsl32.Max | ColourLib/Hsl32Color.cs:151 | `Max` is one of h,s,l and at least each |
| Hsl32.Min | ColourLib/Hsl32Color.cs:152 | `Min` is one of h,s,l and at most each |
| Hsl32.Sum | ColourLib/Hsl32Color.cs:154-160 | colour `+` always yields a colour in policy |
| Hsl32.Difference | ColourLib/Hsl32Color.cs:168-174 | colour `-` always yields a colour in policy |
| Hsl32.Product | ColourLib/Hsl32Color.cs:182-188 | colour `*` always yields a colour in policy |
| Hsl32.Quotient | ColourLib/Hsl32Color.cs:203-209 | colour `/` succeeds iff every channel of right is non-zero, throws DivideByZero otherwise, and yields a colour in policy |
| Hsl32.SumInt | ColourLib/Hsl32Color.cs:161-167 | `+ int` always yields a colour in policy |
| Hsl32.DifferenceInt | ColourLib/Hsl32Color.cs:175-181 | `- int` always yields a colour in policy |
| Hsl32.ProductInt | ColourLib/Hsl32Color.cs:189-195 | `* int` always yields a colour in policy |
| Hsl32.QuotientInt | ColourLib/Hsl32Color.cs:210-216 | `/ int` succeeds iff n != 0, throws DivideByZero otherwise, and yields a colour in policy |
| Hsl32.Negation | ColourLib/Hsl32Color.cs:224-230 | unary `-` gives (360-h, 100-s, 100-l) and keeps colours within the reachable range |
| Hsl32.Distance | ColourLib/Hsl32Color.cs:84-97 | `Difference` yields a colour in policy whose hue is in [0,256) |
| Hsl32.Add | ColourLib/Hsl32Color.cs:154-160 | the operator's setter chain computes Sum |
| Hsl32.AddInt | ColourLib/Hsl32Color.cs:161-167 | the operator's setter chain computes SumInt |
| Hsl32.Subtract | ColourLib/Hsl32Color.cs:168-174 | the operator's setter chain computes Difference |
| Hsl32.SubtractInt | ColourLib/Hsl32Color.cs:175-181 | the operator's setter chain computes DifferenceInt |
| Hsl32.Multiply | ColourLib/Hsl32Color.cs:182-188 | the operator's setter chain computes Product |
| Hsl32.MultiplyInt | ColourLib/Hsl32Color.cs:189-195 | the operator's setter chain computes ProductInt |
| Hsl32.Divide | ColourLib/Hsl32Color.cs:203-209 | the operator, throwing at the first zero channel, computes Quotient |
| Hsl32.DivideInt | ColourLib/Hsl32Color.cs:210-216 | the operator computes QuotientInt |
| Hsl32.Negate | ColourLib/Hsl32Color.cs:224-230 | the direct field writes compute Negation |
| Hsl32.StaticDifference | ColourLib/Hsl32Color.cs:84-90 | static `Difference(left, right)` computes Distance(left, right) |
| Hsl32.InstanceDifference | ColourLib/Hsl32Color.cs:91-97 | instance `c.Difference(color)` computes Distance(c, color), so it agrees with the static form |
| Hsl32.SumOfReachableColours | ColourLib/Hsl32Color.cs:154-160 | on reachable colours, negated ones included, `+` adds hues modulo 360 and saturates the percentages at 100 |
| Hsl32.DifferenceOfReachableColours | ColourLib/Hsl32Color.cs:168-174 | on reachable colours, negated ones included, `-` wraps the hue keeping its sign (so it may be negative); s and l are s-s' when s >= s' and 100 (not 0) when s < s' |
| Hsl32.QuotientOfPolicyColours | ColourLib/Hsl32Color.cs:203-209 | on colours in policy with non-zero divisors, `/` is exact truncating division |
| Hsl32.NegationInvolution | ColourLib/Hsl32Color.cs:224-230 | unary `-` applied twice restores every colour |
| Hsl32.DistanceSymmetric | ColourLib/Hsl32Color.cs:84-97 | `Difference` is symmetric, and it is zero iff s and l match and the hues agree modulo 256 |
| Hsl32.SubtractionExample | ColourLib/Hsl32Color.cs:168-174 | (10,20,50) - (20,30,50) is (-10,100,0) |
| Hsl32.ProductExample | ColourLib/Hsl32Color.cs:182-188 | (200,10,10) * (200,10,10) is (-336,100,100), because the hue product overflows a short |
| Hsl32.NegationExample | ColourLib/Hsl32Color.cs:224-230 | negating (0,0,100) gives (360,100,0), which is outside the setters' policy |
| Hsl32.DistanceWrapsAbove255 | ColourLib/Hsl32Color.cs:84-97 | a hue distance in [256,512) comes out 256 less |
| Hsv32.SetH | ColourLib/Hsv32Color.cs:10-29 | `H` and `H32` store the wrapped hue and change nothing else |
| Hsv32.SetS | ColourLib/Hsv32Color.cs:15-34 | `S` and `S32` store clamp(value,0,100) and change nothing else |
| Hsv32.SetV | ColourLib/Hsv32Color.cs:20-39 | `V` and `V32` store clamp(value,0,100) and change nothing else |
| Hsv32.FromShortAndBytes | ColourLib/Hsv32Color.cs:64-69 | the short/byte constructor wraps the hue and clamps s and v, so its result is in policy |
| Hsv32.FromInts | ColourLib/Hsv32Color.cs:70-75 | the `int` constructor wraps the hue and clamps s and v, so its result is in policy |
| Hsv32.Get | ColourLib/Hsv32Color.cs:42-48 | the indexer reads h,s,v for 0..2 and throws IndexOutOfRange otherwise |
| Hsv32.Set | ColourLib/Hsv32Color.cs:49-62 | an indexer write wraps the hue or clamps to [0,100], leaves the other channels unchanged, keeps the policy, and throws IndexOutOfRange outside 0..2 |
| Hsv32.Equals | ColourLib/Hsv32Color.cs:82 | `Equals` holds iff all three fields match |
| Hsv32.Max | ColourLib/Hsv32Color.cs:141 | `Max` is one of h,s,v and at least each |
| Hsv32.Min | ColourLib/Hsv32Color.cs:142 | `Min` is one of h,s,v and at most each |
| Hsv32.Sum | ColourLib/Hsv32Color.cs:144-150 | colour `+` always yields a colour in policy |
| Hsv32.Difference | ColourLib/Hsv32Color.cs:158-164 | colour `-` always yields a colour in policy |
| Hsv32.Product | ColourLib/Hsv32Color.cs:172-178 | colour `*` always yields a colour in policy |
| Hsv32.Quotient | ColourLib/Hsv32Color.cs:186-192 | colour `/` succeeds iff every channel of right is non-zero, throws DivideByZero otherwise, and yields a colour in policy |
| Hsv32.SumInt | ColourLib/Hsv32Color.cs:151-157 | `+ int` always yields a colour in policy |
| Hsv32.DifferenceInt | ColourLib/Hsv32Color.cs:165-171 | `- int` always yields a colour in policy |
| Hsv32.ProductInt | ColourLib/Hsv32Color.cs:179-185 | `* int` always yields a colour in policy |
| Hsv32.QuotientInt | ColourLib/Hsv32Color.cs:193-199 | `/ int` succeeds iff n != 0, throws DivideByZero otherwise, and yields a colour in policy |
| Hsv32.Negation | ColourLib/Hsv32Color.cs:200-206 | unary `-` gives (360-h, 100-s, 100-v) and keeps colours within the reachable range |
| Hsv32.Distance | ColourLib/Hsv32Color.cs:84-97 | `Difference` yields a colour in policy whose hue is in [0,256) |
| Hsv32.Add | ColourLib/Hsv32Color.cs:144-150 | the operator's setter chain computes Sum |
| Hsv32.AddInt | ColourLib/Hsv32Color.cs:151-157 | the operator's setter chain computes SumInt |
| Hsv32.Subtract | ColourLib/Hsv32Color.cs:158-164 | the operator's setter chain computes Difference |
| Hsv32.SubtractInt | ColourLib/Hsv32Color.cs:165-171 | the operator's setter chain computes DifferenceInt |
| Hsv32.Multiply | ColourLib/Hsv32Color.cs:172-178 | the operator's setter chain computes Product |
| Hsv32.MultiplyInt | ColourLib/Hsv32Color.cs:179-185 | the operator's setter chain computes ProductInt |
| Hsv32.Divide | ColourLib/Hsv32Color.cs:186-192 | the operator, throwing at the first zero channel, computes Quotient |
| Hsv32.DivideInt | ColourLib/Hsv32Color.cs:193-199 | the operator computes QuotientInt |
| Hsv32.Negate | ColourLib/Hsv32Color.cs:200-206 | the direct field writes compute Negation |
| Hsv32.StaticDifference | ColourLib/Hsv32Color.cs:84-90 | static `Difference(left, right)` computes Distance(left, right) |
| Hsv32.InstanceDifference | ColourLib/Hsv32Color.cs:91-97 | instance `c.Difference(color)` computes Distance(c, color), so it agrees with the static form |
| Hsv32.SumOfReachableColours | ColourLib/Hsv32Color.cs:144-150 | on reachable colours, negated ones included, `+` adds hues modulo 360 and saturates the percentages at 100 |
| Hsv32.DifferenceOfReachableColours | ColourLib/Hsv32Color.cs:158-164 | on reachable colours, negated ones included, `-` wraps the hue keeping its sign; s and v underflow to 100, not 0 |
| Hsv32.QuotientOfPolicyColours | ColourLib/Hsv32Color.cs:186-192 | on colours in policy with non-zero divisors, `/` is exact truncating division |
| Hsv32.NegationInvolution | ColourLib/Hsv32Color.cs:200-206 | unary `-` applied twice restores every colour |
| Hsv32.DistanceSymmetric | ColourLib/Hsv32Color.cs:84-97 | `Difference` is symmetric, and it is zero iff s and v match and the hues agree modulo 256 |
| Hsv32.SubtractionExample | ColourLib/Hsv32Color.cs:158-164 | (10,20,50) - (20,30,50) is (-10,100,0) |
| Hsv32.ProductExample | ColourLib/Hsv32Color.cs:172-178 | (200,10,10) * (200,10,10) is (-336,100,100) |
| Hsv32.NegationExample | ColourLib/Hsv32Color.cs:200-206 | negating (0,0,100) gives (360,100,0), which is outside the setters' policy |
| Hsv32.DistanceWrapsAbove255 | ColourLib/Hsv32Color.cs:84-97 | a hue distance in [256,512) comes out 256 less |
| Hsl24.SetH32 | ColourLib/HSL24Color.cs:25-29 | `H32` stores clamp(value,0,255) and changes nothing else |
| Hsl24.SetS32 | ColourLib/HSL24Color.cs:30-34 | `S32` stores clamp(value,0,255) and changes nothing else |
| Hsl24.SetL32 | ColourLib/HSL24Color.cs:35-39 | `L32` stores clamp(value,0,255) and changes nothing else |
| Hsl24.FromInts | ColourLib/HSL24Color.cs:70-75 | the `int` constructor clamps every channel to [0,255] |
| Hsl24.Get | ColourLib/HSL24Color.cs:42-48 | the indexer reads h,s,l for 0..2 and throws IndexOutOfRange otherwise |
| Hsl24.Set | ColourLib/HSL24Color.cs:40-63 | an indexer write stores the byte unchanged in channel i, leaves the others alone, and throws IndexOutOfRange outside 0..2 |
| Hsl24.Equals | ColourLib/HSL24Color.cs:82 | `Equals` holds iff all three fields match |
| Hsl24.Max | ColourLib/HSL24Color.cs:141 | `Max` is one of h,s,l and at least each |
| Hsl24.Min | ColourLib/HSL24Color.cs:142 | `Min` is one of h,s,l and at most each |
| Hsl24.Quotient | ColourLib/HSL24Color.cs:186-199 | `/` succeeds iff every divisor channel is non-zero, throws DivideByZero otherwise, and never exceeds the dividend |
| Hsl24.Negation | ColourLib/HSL24Color.cs:200-206 | unary `-` maps each channel x to 255 - x |
| Hsl24.Distance | ColourLib/HSL24Color.cs:84-97 | `Difference` is abs(x - y) in every channel |
| Hsl24.Add | ColourLib/HSL24Color.cs:144-150 | colour `+` computes Sum, byte addition per channel |
| Hsl24.AddByte | ColourLib/HSL24Color.cs:151-157 | `+ byte` is the colour sum with the uniform colour of that byte |
| Hsl24.Subtract | ColourLib/HSL24Color.cs:158-164 | colour `-` computes Difference, byte subtraction per channel |
| Hsl24.SubtractByte | ColourLib/HSL24Color.cs:165-171 | `- byte` is the colour difference with the uniform colour of that byte |
| Hsl24.Multiply | ColourLib/HSL24Color.cs:172-178 | colour `*` computes Product, byte multiplication per channel |
| Hsl24.MultiplyByte | ColourLib/HSL24Color.cs:179-185 | `* byte` is the colour product with the uniform colour of that byte |
| Hsl24.Divide | ColourLib/HSL24Color.cs:186-192 | colour `/`, throwing at the first zero channel, computes Quotient |
| Hsl24.DivideByte | ColourLib/HSL24Color.cs:193-199 | `/ byte` is the colour quotient by the uniform colour of that byte |
| Hsl24.Negate | ColourLib/HSL24Color.cs:200-206 | the direct field writes compute Negation |
| Hsl24.StaticDifference | ColourLib/HSL24Color.cs:84-90 | static `Difference(left, right)` computes Distance(left, right) |
| Hsl24.InstanceDifference | ColourLib/HSL24Color.cs:91-97 | instance `c.Difference(color)` computes Distance(c, color), so it agrees with the static form |
| Hsl24.DifferenceUndoesSum | ColourLib/HSL24Color.cs:144-171 | `-` undoes `+` and `+` undoes `-`, since channels are integers modulo 256 |
| Hsl24.SumAndProductCommute | ColourLib/HSL24Color.cs:144-178 | `+` and `*` are commutative |
| Hsl24.ProductDistributes | ColourLib/HSL24Color.cs:144-178 | `*` distributes over `+` channel by channel, wrap-around included |
| Hsl24.ProductUnitAndZero | ColourLib/HSL24Color.cs:172-178 | the uniform colour (1,1,1) is a unit for `*` and (0,0,0) absorbs it |
| Hsl24.QuotientTruncates | ColourLib/HSL24Color.cs:186-192 | for non-zero divisors, each quotient channel q satisfies q*d <= x < (q+1)*d |
| Hsl24.NegationInvolution | ColourLib/HSL24Color.cs:200-206 | unary `-` is an involution and equals subtraction from (255,255,255) |
| Hsl24.DistanceSymmetric | ColourLib/HSL24Color.cs:84-97 | `Difference` is symmetric and is zero iff the colours are equal |
| Hsv24.SetH32 | ColourLib/HSV24Color.cs:25-29 | `H32` stores clamp(value,0,255) and changes nothing else |
| Hsv24.SetS32 | ColourLib/HSV24Color.cs:30-34 | `S32` stores clamp(value,0,255) and changes nothing else |
| Hsv24.SetV32 | ColourLib/HSV24Color.cs:35-39 | `V32` stores clamp(value,0,255) and changes nothing else |
| Hsv24.Get | ColourLib/HSV24Color.cs:42-48 | the indexer reads h,s,v for 0..2 and throws IndexOutOfRange otherwise |
| Hsv24.Set | ColourLib/HSV24Color.cs:40-63 | an indexer write stores the byte unchanged in channel i, leaves the others alone, and throws IndexOutOfRange outside 0..2 |
| Hsv24.Equals | ColourLib/HSV24Color.cs:82 | `Equals` holds iff all three fields match |
| Hsv24.Max | ColourLib/HSV24Color.cs:108 | `Max` is one of h,s,v and at least each |
| Hsv24.Min | ColourLib/HSV24Color.cs:109 | `Min` is one of h,s,v and at most each |
| Hsv24.Quotient | ColourLib/HSV24Color.cs:153-166 | `/` succeeds iff every divisor channel is non-zero, throws DivideByZero otherwise, and never exceeds the dividend |
| Hsv24.Negation | ColourLib/HSV24Color.cs:167-173 | unary `-` maps each channel x to 255 - x |
| Hsv24.Distance | ColourLib/HSV24Color.cs:84-97 | `Difference` is abs(x - y) in every channel |
| Hsv24.Add | ColourLib/HSV24Color.cs:111-117 | colour `+` computes Sum, byte addition per channel |
| Hsv24.AddByte | ColourLib/HSV24Color.cs:118-124 | `+ byte` is the colour sum with the uniform colour of that byte |
| Hsv24.Subtract | ColourLib/HSV24Color.cs:125-131 | colour `-` computes Difference, byte subtraction per channel |
| Hsv24.SubtractByte | ColourLib/HSV24Color.cs:132-138 | `- byte` is the colour difference with the uniform colour of that byte |
| Hsv24.Multiply | ColourLib/HSV24Color.cs:139-145 | colour `*` computes Product, byte multiplication per channel |
| Hsv24.MultiplyByte | ColourLib/HSV24Color.cs:146-152 | `* byte` is the colour product with the uniform colour of that byte |
| Hsv24.Divide | ColourLib/HSV24Color.cs:153-159 | colour `/`, throwing at the first zero channel, computes Quotient |
| Hsv24.DivideByte | ColourLib/HSV24Color.cs:160-166 | `/ byte` is the colour quotient by the uniform colour of that byte |
| Hsv24.Negate | ColourLib/HSV24Color.cs:167-173 | the direct field writes compute Negation |
| Hsv24.StaticDifference | ColourLib/HSV24Color.cs:84-90 | static `Difference(left, right)` computes Distance(left, right) |
| Hsv24.InstanceDifference | ColourLib/HSV24Color.cs:91-97 | instance `c.Difference(color)` computes Distance(c, color), so it agrees with the static form |
| Hsv24.DifferenceUndoesSum | ColourLib/HSV24Color.cs:111-138 | `-` undoes `+` and `+` undoes `-`, since channels are integers modulo 256 |
| Hsv24.SumAndProductCommute | ColourLib/HSV24Color.cs:111-145 | `+` and `*` are commutative |
| Hsv24.ProductDistributes | ColourLib/HSV24Color.cs:111-145 | `*` distributes over `+` channel by channel, wrap-around included |
| Hsv24.ProductUnitAndZero | ColourLib/HSV24Color.cs:139-145 | the uniform colour (1,1,1) is a unit for `*` and (0,0,0) absorbs it |
| Hsv24.QuotientTruncates | ColourLib/HSV24Color.cs:153-159 | for non-zero divisors, each quotient channel q satisfies q*d <= x < (q+1)*d |
| Hsv24.NegationInvolution | ColourLib/HSV24Color.cs:167-173 | unary `-` is an involution and equals subtraction from (255,255,255) |
| Hsv24.DistanceSymmetric | ColourLib/HSV24Color.cs:84-97 | `Difference` is symmetric and is zero iff the colours are equal |

## Left out

- Floating-point members of the core files are not modelled: a model over `real` would not follow IEEE float rounding. These include:
  - the float constructors (Color32.cs:100-106, Hsl32Color.cs:76-81, and the same in the other files);
  - `Grayscale` (Color32.cs:79-85);
  - the float `*` and `/` operators (Hsl32Color.cs:196-202, 217-223);
  - `Lerp` and `LerpUnclamped` (Hsl32Color.cs:98-117), which multiply floats and round;
  - `InverseLerp` (Hsl32Color.cs:118-150), which relies on `Vector4` division producing NaN and infinities;
  - the `Vector4` casts and the conversions to and from the other colour types.
- The Color32 members at Color32.cs:166-260 are not modelled, because they only throw NotImplementedException. These are both `Difference` forms, `Lerp`, `LerpUnclamped`, the binary `+ - * /` operators (colour and byte forms), unary `-`, `operator ==`/`!=` and the two `Vector4` casts.
- The HSV24Color constructors (HSV24Color.cs:64-75) are not modelled, because they read an undefined `l` and do not compile as written.
- `GetHashCode`, `ToString` and `Equals(object)` are not modelled. Neither are `operator ==`/`!=` of the Hsl32, Hsv32, HSL24 and HSV24 types, which only delegate to `Equals`, which is modelled. Color32's `==`/`!=` throw NotImplementedException (Color32.cs:242-250), as the line above says.
- The optional `a = 255` parameter of the Color32 byte and `int` constructors (Color32.cs:86, 93) is not modelled as a default: the model's callers pass alpha explicitly.
- Whitespace is not modelled. `uint.Parse` with `NumberStyles.HexNumber` accepts leading and trailing white space; here any non-hex character is a FormatException. Overflow of `uint` is decided as "more than eight significant digits"; HexDigits.OverflowIsAboveMax proves that this is the same as "value above uint.MaxValue".
- HexDigits.ParseHexUInt32: the parsed bit pattern is tied to the digits nibble by nibble (`ShiftIn`), not to HexValue as a number, because relating a `bv32` to the `int` it denotes is beyond the solver at this proof size. The overflow decision is tied to HexValue by ParseInRange.
- The byte setters of Color32, HSL24Color and HSV24Color, and the byte constructors of Color32 and HSL24Color, have no member of their own. (The HSV24Color constructors are left out; see above.) They store their argument unchanged, so the datatype constructor and the record update `c.(h := x)` model them.
- Hsl32.SetH, Hsl32.SetS and Hsl32.SetL each stand for two setters (`H` and `H32`, and so on), since those have the same body. The `short` or `byte` argument of `H`/`S`/`L` is passed widened to `int`, as C# does. Hsv32 is the same.
- Hsl24.Sum, Hsl24.Difference and Hsl24.Product, and their Hsv24 twins, carry no ensures of their own: they are byte arithmetic per channel. Their properties are the lemmas DifferenceUndoesSum and SumAndProductCommute, and the methods that compute them.
- CSharpInt.Abs is stated for `int` without `Math.Abs(int.MinValue)`'s OverflowException. No argument in this model comes near that value: every argument is a difference of two shorts or two bytes.
