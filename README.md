# UINTColor32 in Dafny

This project models `UINTColor32`, the packed colour value of the Paint-Plugin
painting engine (`Assets/Scripts/Color32.cs`). A colour has four 8-bit channels
(red, green, blue, alpha) laid over one 32-bit word. The word stores red in its
lowest byte and alpha in its highest: `r | g << 8 | b << 16 | a << 24`. Written as
eight hex digits it reads AABBGGRR.

Files:

- `wrappers.dfy`: module `Wrappers`, holding `Option` (a .NET reference that may
  be null) and `Result` (a value, or the exception the call throws).
- `dotnet.dfy`: module `DotNet`. It holds the .NET integer types as bounded
  newtypes (`byte`, `uint32`, `int32`). It models a .NET `char` as one UTF-16
  code unit (`char16`) and a .NET `string` as a sequence of them (`CsString`).
  It also holds the library operations the colour calls: the unchecked
  `int`/`uint` casts, `(byte)` truncation, `>>` and `<<=` on `uint`, the wrapping
  `+=`, `UInt32.CompareTo`, `UInt32.ToString("x8")`, and `UInt32.TryParse` of a
  one-character string with `NumberStyles.HexNumber`.
- `color32.dfy`: module `Color32`. It holds the packing functions, the
  specification of `Parse`, the class `UINTColor32` and the lemmas about them.

In C# the struct stores the word and the four channel bytes at shared offsets.
Here they are separate fields of a class. The overlay becomes the representation
invariant `Valid()`, which says the word is the packing of the channels.

- The constructors and `SetRGBA` assign the fields one by one, as the source does.
- `Parse` runs the source's loop, proved against the specification function `ParseWord`.
- The indexer, comparisons, equality, the operators and `ToString` are functions
  that read the object.

`Parse` counts UTF-16 code units, as `string.Length` and the string indexer do.
A character outside the Basic Multilingual Plane is therefore two units, and
neither unit is a hex digit. A string may also hold a lone surrogate.

## Model

| member | source | states |
|---|---|---|
| Color32.UINTColor32.FromChannels | Assets/Scripts/Color32.cs:46-54 | the channels are the arguments; the word is r + g·2^8 + b·2^16 + a·2^24; the invariant holds |
| Color32.UINTColor32.FromInt | Assets/Scripts/Color32.cs:61-68 | the word is the argument's bits read as unsigned; r, g, b, a are bytes 0 to 3 of it; the invariant holds |
| Color32.UINTColor32.Rgba | Assets/Scripts/Color32.cs:70-76 | the packed word's bytes 0 to 3 are r, g, b, a |
| Color32.UINTColor32.SetRGBA | Assets/Scripts/Color32.cs:78-85 | afterwards the word is w, r, g, b, a are bytes 0 to 3 of w, and packing them gives w back |
| Color32.UINTColor32.Get | Assets/Scripts/Color32.cs:18-35 | indices 0 to 3 return the byte of the word at that offset (r, g, b, a); every other index throws IndexOutOfRange carrying the index |
| Color32.UINTColor32.Eq | Assets/Scripts/Color32.cs:97-105 | `==` holds exactly when the packed words are equal |
| Color32.UINTColor32.Neq | Assets/Scripts/Color32.cs:115-118 | `!=` holds exactly when the packed words differ |
| Color32.UINTColor32.Less | Assets/Scripts/Color32.cs:129-132 | `<` holds exactly when the unsigned packed word is smaller |
| Color32.UINTColor32.Greater | Assets/Scripts/Color32.cs:143-146 | `>` holds exactly when the unsigned packed word is larger |
| Color32.UINTColor32.Parse | Assets/Scripts/Color32.cs:155-175 | the loop over the UTF-16 units returns a new valid colour whose word is ParseWord of the input (0 for null) |
| Color32.UINTColor32.Clone | Assets/Scripts/Color32.cs:181-184 | a new, separate colour with the same word and the same four channels |
| Color32.UINTColor32.CompareTo | Assets/Scripts/Color32.cs:209-212 | -1, 0 or 1 as the unsigned word is below, equal to or above the other's |
| Color32.UINTColor32.Equals | Assets/Scripts/Color32.cs:223-226 | true exactly when CompareTo is 0; for valid colours, exactly when all four channels agree |
| Color32.UINTColor32.EqualsObject | Assets/Scripts/Color32.cs:239-243 | false for null or a non-colour; otherwise true exactly when the words are equal |
| Color32.UINTColor32.ToString | Assets/Scripts/Color32.cs:259-262 | exactly 8 lower-case hex digits, whose value is the packed word |
| Color32.UINTColor32.Valid | Assets/Scripts/Color32.cs:7-16 | the overlay: the word is the packing of the channels, exactly when each channel is the word's byte at its offset |
| Color32.Channel | Assets/Scripts/Color32.cs:64-67 | byte k of the word (the field at offset k) is `(byte)(w >> 8k)` |
| Color32.Pack | Assets/Scripts/Color32.cs:48 | bytes 0, 1, 2, 3 of the packed word are red, green, blue, alpha |
| Color32.PackOfChannels | Assets/Scripts/Color32.cs:61-68 | packing the four bytes of any word gives the word back |
| Color32.PackInjective | Assets/Scripts/Color32.cs:10-16 | two packings are equal exactly when their four channels are equal |
| Color32.DigitOrZero | Assets/Scripts/Color32.cs:167-172 | each unit adds a value below 16 |
| Color32.HexValue | Assets/Scripts/Color32.cs:162-173 | the base-16 value of the units, a non-digit counting as 0; n units denote less than 16^n |
| Color32.HexValueOfHexDigits | Assets/Scripts/Color32.cs:261 | writing the n low hex digits of a number below 16^n and reading them back gives the number |
| Color32.FormatHex8Value | Assets/Scripts/Color32.cs:261 | the eight digits written for a word denote that word |
| Color32.Step | Assets/Scripts/Color32.cs:166-172 | one turn of the loop; while the accumulator's top digit is free, it appends the unit's digit value (0 for a non-digit) |
| Color32.Accumulate | Assets/Scripts/Color32.cs:161-173 | the accumulator after the loop; over at most 8 units it never wraps and equals the plain base-16 value |
| Color32.Significant | Assets/Scripts/Color32.cs:162 | Parse reads exactly the first min(Length, 8) code units |
| Color32.ParseWord | Assets/Scripts/Color32.cs:155-175 | null gives 0; otherwise the base-16 value of the first min(Length, 8) units, a non-digit counting as 0, so the result fits in 32 bits |
| Color32.ParseIgnoresTail | Assets/Scripts/Color32.cs:162 | code units after the eighth do not change the result |
| Color32.AccumulateDigitwise | Assets/Scripts/Color32.cs:163-173 | strings with the same digit values, position by position, accumulate to the same word |
| Color32.InvalidCharCountsAsZero | Assets/Scripts/Color32.cs:165-172 | a non-hex unit still shifts the accumulator and counts exactly like a '0' in its place |
| Color32.SurrogatePairCountsAsTwoZeros | Assets/Scripts/Color32.cs:162-172 | a character outside the Basic Multilingual Plane (a surrogate pair) parses like "00" and takes two of the eight places |
| Color32.ParseSupplementaryCharExample | Assets/Scripts/Color32.cs:155-175 | "\U{1F600}1234567" (nine code units) parses to 0x00123456 |
| Color32.ParseIgnoresCase | Assets/Scripts/Color32.cs:169 | an upper-case hex letter parses like its lower-case form |
| Color32.ParseFormatRoundTrip | Assets/Scripts/Color32.cs:155-175 | parsing the eight digits written for any word gives that word back |
| Color32.ParseOfToString | Assets/Scripts/Color32.cs:259-262 | Parse(c.ToString()) has the word of c, so it equals c |
| Color32.CompareToIsTotalOrder | Assets/Scripts/Color32.cs:209-212 | CompareTo is reflexive, antisymmetric, transitive and total, and it is 0 exactly when Equals holds |
| Color32.OperatorsAgreeWithCompareTo | Assets/Scripts/Color32.cs:115-146 | `<` and `>` follow CompareTo's sign and mirror each other; `==` is neither `<` nor `>`; `!=` negates `==` |
| DotNet.ToUInt32 | Assets/Scripts/Color32.cs:63 | `(uint)` keeps the bits: the same value modulo 2^32, unchanged when non-negative |
| DotNet.ToInt32 | Assets/Scripts/Color32.cs:174 | `(int)` keeps the bits: the same value modulo 2^32, unchanged below 2^31 |
| DotNet.CastRoundTrip | Assets/Scripts/Color32.cs:183 | `(uint)(int)u == u`, so Clone and Parse lose nothing through the signed constructor |
| DotNet.ToByte | Assets/Scripts/Color32.cs:64-67 | `(byte)` keeps the low 8 bits: the result is congruent to x modulo 2^8, and x itself when x is below 2^8 |
| DotNet.ShiftRight | Assets/Scripts/Color32.cs:82-84 | `x >> n` drops the n low bits: r·2^n <= x < (r + 1)·2^n |
| DotNet.ShiftLeft4 | Assets/Scripts/Color32.cs:166 | `<<= 4` multiplies by 16 when nothing is shifted out, and always leaves a multiple of 16 |
| DotNet.WrappingAdd | Assets/Scripts/Color32.cs:171 | `+=` on `uint` is the sum, minus 2^32 when the sum overflows |
| DotNet.CompareUInt32 | Assets/Scripts/Color32.cs:211 | -1, 0 or 1 by the unsigned order |
| DotNet.TryParseHexChar | Assets/Scripts/Color32.cs:169 | succeeds exactly on the code units 0-9, a-f, A-F, with a value below 16 |
| DotNet.IsLowerHexDigit | Assets/Scripts/Color32.cs:261 | the digits `"x8"` writes are exactly the units TryParse accepts, minus upper-case A-F |
| DotNet.HexChar | Assets/Scripts/Color32.cs:261 | the digit written for d is a lower-case hex digit that parses back to d |
| DotNet.HexDigits | Assets/Scripts/Color32.cs:261 | n code units, each a lower-case hex digit |
| DotNet.FormatHex8 | Assets/Scripts/Color32.cs:261 | exactly 8 code units, each a lower-case hex digit |

## Left out

- The implicit conversions from and to Unity's floating-point `Color` (Assets/Scripts/Color32.cs:264, :268) use float arithmetic, `Mathf.Round` and `Mathf.Clamp01`; floating point is not modelled.
- The implicit conversion from Unity's `Color32` (Assets/Scripts/Color32.cs:266) takes a foreign type. It only calls the channel constructor, which is modelled as `FromChannels`.
- `GetHashCode` (Assets/Scripts/Color32.cs:247-250) returns the library's `uint.GetHashCode`. That function is not part of this model.
- Color32.UINTColor32.Eq: the `ReferenceEquals(colorA, null)` test in `operator ==` compares a boxed copy of a struct with null. It is always false, so `==` is modelled as `Equals`.
- The memory overlay itself (`StructLayout`/`FieldOffset`) is not modelled. It appears as the invariant `Valid()` that ties the channel fields to the word. Callers' direct writes to the public channel fields `r`, `g`, `b`, `a` would also change the word through the overlay; no operation of the type does this, and the model has no such write.
- The struct is a value type, copied on assignment. The model uses a class, so copies are explicit: `Clone` and `Parse` return fresh objects.
- Color32.Pack: it is defined as the sum of the shifted channels. It is not defined with the source's bitwise OR, because the shifted channels occupy disjoint bytes and the OR equals the sum.
- Camera control, mouse projection and the frame-rate overlay (`CameraController.cs`, `MouseInfo.cs`, `ShowFPS.cs`) are Unity input, float and UI code. They are not part of this model, and neither are the canvas, chunk and brush files.
