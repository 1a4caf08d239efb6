/**
 * UINTColor32: a colour of four 8-bit channels red, green, blue and alpha,
 * overlaid on one 32-bit word. The word holds red in its lowest byte and alpha
 * in its highest (`r | g << 8 | b << 16 | a << 24`), so that written as eight
 * hexadecimal digits it reads AABBGGRR.
 *
 * The struct keeps the word and the four channel fields at the same memory
 * offsets; here they are separate fields of a class and the overlay becomes
 * the representation invariant `Valid()`: the word is the packing of the four
 * channels.
 */
module Color32 {
  import opened Wrappers
  import opened DotNet

  // ---------------------------------------------------------------------------
  // Packing and unpacking the word

  /** Byte k (0 lowest, 3 highest) of the word w, the channel stored at offset k: `(byte)(w >> 8k)`. */
  function Channel(w: uint32, k: nat): (c: byte)
    requires k < 4
    ensures c == ToByte(ShiftRight(w, 8 * k))
  {
    var unit := if k == 0 then 1 else if k == 1 then 0x100 else if k == 2 then 0x1_0000 else 0x100_0000;
    assert Pow2(8 * k) == unit by {
      assert Pow2(8) == 0x100 && Pow2(16) == 0x1_0000 && Pow2(24) == 0x100_0000;
    }
    var q := ShiftRight(w, 8 * k) as int;
    DivModOf(w as int, unit, q, w as int - q * unit);
    ((w as int / unit) % 0x100) as byte
  }

  /**
   * The word whose little-endian bytes are red, green, blue and alpha. The
   * shifted channels occupy disjoint bytes, so OR-ing them adds them.
   */
  function Pack(red: byte, green: byte, blue: byte, alpha: byte): (w: uint32)
    ensures Channel(w, 0) == red
    ensures Channel(w, 1) == green
    ensures Channel(w, 2) == blue
    ensures Channel(w, 3) == alpha
  {
    var r, g, b, a := red as int, green as int, blue as int, alpha as int;
    var x := r + 0x100 * g + 0x1_0000 * b + 0x100_0000 * a;
    DivModOf(x, 0x100, g + 0x100 * b + 0x1_0000 * a, r);
    DivModOf(g + 0x100 * b + 0x1_0000 * a, 0x100, b + 0x100 * a, g);
    DivModOf(x, 0x1_0000, b + 0x100 * a, r + 0x100 * g);
    DivModOf(b + 0x100 * a, 0x100, a, b);
    DivModOf(x, 0x100_0000, a, r + 0x100 * g + 0x1_0000 * b);
    DivModOf(a, 0x100, 0, a);
    x as uint32
  }

  /** Packing the four bytes of a word gives the word back. */
  lemma PackOfChannels(w: uint32)
    ensures Pack(Channel(w, 0), Channel(w, 1), Channel(w, 2), Channel(w, 3)) == w
  {
    var x := w as int;
    var r, x1 := x % 0x100, x / 0x100;
    var g, x2 := x1 % 0x100, x1 / 0x100;
    var b, x3 := x2 % 0x100, x2 / 0x100;
    DivModOf(x, 0x1_0000, x2, r + 0x100 * g);
    DivModOf(x, 0x100_0000, x3, r + 0x100 * g + 0x1_0000 * b);
    DivModOf(x3, 0x100, 0, x3);
  }

  /** Euclidean division is unique: a quotient and remainder that rebuild x are x / d and x % d. */
  lemma DivModOf(x: int, d: int, q: int, m: int)
    requires d > 0 && 0 <= m < d && x == q * d + m
    ensures x / d == q && x % d == m
  {
    var q', m' := x / d, x % d;
    assert (q - q') * d == m' - m;
    if q' < q {
      MulAtLeast(q - q', d);
    } else if q < q' {
      MulAtLeast(q' - q, d);
    }
  }

  lemma MulAtLeast(k: int, d: int)
    requires k >= 1 && d > 0
    ensures k * d >= d
  {
  }

  /** Two packings agree exactly when their channels agree. */
  lemma PackInjective(r0: byte, g0: byte, b0: byte, a0: byte, r1: byte, g1: byte, b1: byte, a1: byte)
    ensures Pack(r0, g0, b0, a0) == Pack(r1, g1, b1, a1) <==> r0 == r1 && g0 == g1 && b0 == b1 && a0 == a1
  {
  }

  // ---------------------------------------------------------------------------
  // Hexadecimal text

  /** The value Parse adds for one code unit: its hex digit, or 0 for any other unit. */
  function DigitOrZero(c: char16): (d: nat)
    ensures d < 16
  {
    match TryParseHexChar(c)
    case Some(n) => n as nat
    case None => 0
  }

  /** 16^n. */
  function Pow16(n: nat): (p: nat)
    ensures p >= 1
  {
    if n == 0 then 1 else 16 * Pow16(n - 1)
  }

  lemma {:induction false} Pow16Monotone(m: nat, n: nat)
    requires m <= n
    ensures Pow16(m) <= Pow16(n)
  {
    if m < n {
      Pow16Monotone(m, n - 1);
    }
  }

  /**
   * The number the code units of s denote as hexadecimal digits, most
   * significant first, a unit that is no hex digit standing for 0; n units
   * denote less than 16^n.
   */
  function HexValue(s: CsString): (v: nat)
    ensures v < Pow16(|s|)
  {
    if s == [] then 0 else 16 * HexValue(s[..|s| - 1]) + DigitOrZero(s[|s| - 1])
  }

  /** Writing the n low digits of a number below 16^n loses nothing. */
  lemma {:induction false} HexValueOfHexDigits(v: nat, n: nat)
    requires v < Pow16(n)
    ensures HexValue(HexDigits(v, n)) == v
  {
    if n > 0 {
      var s := HexDigits(v, n);
      assert s[..n - 1] == HexDigits(v / 16, n - 1);
      assert s[n - 1] == HexChar(v % 16);
      HexValueOfHexDigits(v / 16, n - 1);
    }
  }

  /** Eight hex digits denote exactly the word they were written from. */
  lemma FormatHex8Value(u: uint32)
    ensures HexValue(FormatHex8(u)) == u as int
  {
    assert Pow16(8) == TWO_32;
    HexValueOfHexDigits(u as int, 8);
  }

  // ---------------------------------------------------------------------------
  // Parse, as a specification

  /**
   * One turn of Parse's loop: shift the accumulator one hex digit to the left
   * and add the unit's digit value, if the unit is a hex digit. While the
   * accumulator has a free top digit, this appends one digit.
   */
  function Step(acc: uint32, c: char16): (r: uint32)
    ensures acc < 0x1000_0000 ==> r as int == 16 * acc as int + DigitOrZero(c)
  {
    var shifted := ShiftLeft4(acc);
    match TryParseHexChar(c)
    case Some(n) => WrappingAdd(shifted, n)
    case None => shifted
  }

  /**
   * The accumulator after Parse's loop has run over every unit of s. Over at
   * most eight units it never wraps: it is the plain hex value.
   */
  function Accumulate(s: CsString): (w: uint32)
    ensures |s| <= 8 ==> w as int == HexValue(s)
  {
    if s == [] then 0
    else
      var p := s[..|s| - 1];
      Pow16Monotone(if |p| <= 7 then |p| else 7, 7);
      assert Pow16(7) == 0x1000_0000;
      Step(Accumulate(p), s[|s| - 1])
  }

  /** The code units Parse reads: the first min(Length, 8). */
  function Significant(s: CsString): (t: CsString)
    ensures |t| == if |s| <= 8 then |s| else 8
    ensures t <= s
  {
    if |s| <= 8 then s else s[..8]
  }

  /**
   * The packed word Parse returns: 0 for null, otherwise the hex value of the
   * first eight code units, a unit that is no digit counting as 0, so that it
   * always fits in 32 bits.
   */
  function ParseWord(value: Option<CsString>): (w: uint32)
    ensures value.None? ==> w == 0
    ensures value.Some? ==> w as int == HexValue(Significant(value.value))
  {
    match value
    case None => 0
    case Some(s) =>
      CastRoundTrip(Accumulate(Significant(s)));
      ToUInt32(ToInt32(Accumulate(Significant(s))))
  }

  /** Code units after the eighth do not matter. */
  lemma ParseIgnoresTail(s: CsString, t: CsString)
    requires |s| >= 8
    ensures ParseWord(Some(s + t)) == ParseWord(Some(s))
  {
    assert Significant(s + t) == Significant(s);
  }

  /** Two strings whose code units have the same digit values accumulate alike. */
  lemma {:induction false} AccumulateDigitwise(s: CsString, t: CsString)
    requires |s| == |t|
    requires forall i :: 0 <= i < |s| ==> DigitOrZero(s[i]) == DigitOrZero(t[i])
    ensures Accumulate(s) == Accumulate(t)
  {
    if s != [] {
      var n := |s| - 1;
      AccumulateDigitwise(s[..n], t[..n]);
      var shifted := ShiftLeft4(Accumulate(s[..n]));
      assert WrappingAdd(shifted, 0) == shifted;
    }
  }

  /**
   * A code unit that is no hex digit still moves the accumulator one digit
   * along: it counts exactly as a '0' in its place.
   */
  lemma InvalidCharCountsAsZero(s: CsString, i: nat, c: char16)
    requires i < |s|
    requires TryParseHexChar(c).None?
    ensures ParseWord(Some(s[i := c])) == ParseWord(Some(s[i := DIGIT_0]))
  {
    AccumulateDigitwise(Significant(s[i := c]), Significant(s[i := DIGIT_0]));
  }

  /**
   * A character outside the Basic Multilingual Plane is two code units, a
   * high and a low surrogate, neither a hex digit: it parses as "00" and
   * uses up two of the eight significant places.
   */
  lemma SurrogatePairCountsAsTwoZeros(high: char16, low: char16, s: CsString)
    requires 0xD800 <= high < 0xDC00 && 0xDC00 <= low < 0xE000
    ensures ParseWord(Some([high, low] + s)) == ParseWord(Some([DIGIT_0, DIGIT_0] + s))
  {
    AccumulateDigitwise(Significant([high, low] + s), Significant([DIGIT_0, DIGIT_0] + s));
  }

  /**
   * "\U{1F600}1234567" is nine code units (a surrogate pair and seven digits);
   * Parse reads the pair and "123456", giving 0x00123456.
   */
  lemma ParseSupplementaryCharExample()
    ensures ParseWord(Some([0xD83D, 0xDE00, 0x31, 0x32, 0x33, 0x34, 0x35, 0x36, 0x37])) == 0x0012_3456
  {
    var s: CsString := [0xD83D, 0xDE00, 0x31, 0x32, 0x33, 0x34, 0x35, 0x36, 0x37];
    assert Significant(s) == s[..8];
    HexValuePrefix(s, 0);
    assert DigitOrZero(s[0]) == 0;
    HexValuePrefix(s, 1);
    assert DigitOrZero(s[1]) == 0;
    HexValuePrefix(s, 2);
    assert DigitOrZero(s[2]) == 1;
    HexValuePrefix(s, 3);
    assert DigitOrZero(s[3]) == 2;
    HexValuePrefix(s, 4);
    assert DigitOrZero(s[4]) == 3;
    HexValuePrefix(s, 5);
    assert DigitOrZero(s[5]) == 4;
    HexValuePrefix(s, 6);
    assert DigitOrZero(s[6]) == 5;
    HexValuePrefix(s, 7);
    assert DigitOrZero(s[7]) == 6;
  }

  /** Taking one more unit of s appends one digit. */
  lemma HexValuePrefix(s: CsString, k: nat)
    requires k < |s|
    ensures HexValue(s[..k + 1]) == 16 * HexValue(s[..k]) + DigitOrZero(s[k])
  {
    assert s[..k + 1][..k] == s[..k];
  }

  /** Upper- and lower-case hex digits parse alike. */
  lemma ParseIgnoresCase(s: CsString, i: nat, d: nat)
    requires i < |s| && 10 <= d < 16
    ensures ParseWord(Some(s[i := UPPER_A + (d - 10) as char16])) == ParseWord(Some(s[i := LOWER_A + (d - 10) as char16]))
  {
    AccumulateDigitwise(Significant(s[i := UPPER_A + (d - 10) as char16]), Significant(s[i := LOWER_A + (d - 10) as char16]));
  }

  /** Parsing the eight digits written for a word gives the word back. */
  lemma ParseFormatRoundTrip(w: uint32)
    ensures ParseWord(Some(FormatHex8(w))) == w
  {
    FormatHex8Value(w);
  }

  // ---------------------------------------------------------------------------
  // The colour

  /** The exception the indexer throws for an index other than 0 to 3. */
  datatype IndexError = IndexOutOfRange(index: int32)

  class UINTColor32 {
    /** The packed word AABBGGRR. */
    var rgba: uint32
    /** The channels, bytes 0 to 3 of the word. */
    var r: byte
    var g: byte
    var b: byte
    var a: byte

    /** The overlay: the word is the packing of the channels, so each channel is the word's byte at its offset. */
    ghost predicate Valid(): (v: bool)
      reads this
      ensures v <==> r == Channel(rgba, 0) && g == Channel(rgba, 1) && b == Channel(rgba, 2) && a == Channel(rgba, 3)
    {
      PackOfChannels(rgba);
      rgba == Pack(r, g, b, a)
    }

    /** The colour with the given channels. */
    constructor FromChannels(red: byte, green: byte, blue: byte, alpha: byte)
      ensures Valid()
      ensures r == red && g == green && b == blue && a == alpha
      ensures rgba as int == red as int + green as int * 0x100 + blue as int * 0x1_0000 + alpha as int * 0x100_0000
    {
      rgba := Pack(red, green, blue, alpha);
      r := red;
      g := green;
      b := blue;
      a := alpha;
    }

    /** The colour whose word has the bits of the signed integer x. */
    constructor FromInt(x: int32)
      ensures Valid() && rgba == ToUInt32(x)
      ensures r == Channel(rgba, 0) && g == Channel(rgba, 1) && b == Channel(rgba, 2) && a == Channel(rgba, 3)
    {
      rgba := ToUInt32(x);
      new;
      r := ToByte(rgba);
      g := ToByte(ShiftRight(rgba, 8));
      b := ToByte(ShiftRight(rgba, 16));
      a := ToByte(ShiftRight(rgba, 24));
      PackOfChannels(rgba);
    }

    /** The packed word; its bytes are the channels. */
    function Rgba(): (w: uint32)
      reads this
      requires Valid()
      ensures Channel(w, 0) == r && Channel(w, 1) == g && Channel(w, 2) == b && Channel(w, 3) == a
    {
      rgba
    }

    /** Replaces the word and re-derives every channel from it. */
    method SetRGBA(w: uint32)
      modifies this
      ensures Valid() && rgba == w
      ensures r == Channel(w, 0) && g == Channel(w, 1) && b == Channel(w, 2) && a == Channel(w, 3)
    {
      rgba := w;
      r := ToByte(rgba);
      g := ToByte(ShiftRight(rgba, 8));
      b := ToByte(ShiftRight(rgba, 16));
      a := ToByte(ShiftRight(rgba, 24));
      PackOfChannels(w);
    }

    /** The indexer: channels red, green, blue, alpha at 0 to 3; any other index throws. */
    function Get(index: int32): (res: Result<byte, IndexError>)
      reads this
      requires Valid()
      ensures res.Ok? <==> 0 <= index < 4
      ensures res.Ok? ==> res.value == Channel(rgba, index as nat)
      ensures res.Err? ==> res.error == IndexOutOfRange(index)
    {
      if index == 0 then Ok(r)
      else if index == 1 then Ok(g)
      else if index == 2 then Ok(b)
      else if index == 3 then Ok(a)
      else Err(IndexOutOfRange(index))
    }

    /** Order by the unsigned packed word. */
    function CompareTo(other: UINTColor32): (c: int32)
      reads this, other
      ensures -1 <= c <= 1
      ensures c < 0 <==> rgba < other.rgba
      ensures c == 0 <==> rgba == other.rgba
      ensures c > 0 <==> rgba > other.rgba
    {
      CompareUInt32(rgba, other.rgba)
    }

    /** Equal words; for valid colours, the same four channels. */
    function Equals(other: UINTColor32): (eq: bool)
      reads this, other
      ensures eq <==> CompareTo(other) == 0
      ensures Valid() && other.Valid() ==>
        (eq <==> r == other.r && g == other.g && b == other.b && a == other.a)
    {
      PackInjective(r, g, b, a, other.r, other.g, other.b, other.a);
      rgba == other.rgba
    }

    /**
     * `Equals(object)`: `obj` is None when it is null or not a boxed
     * UINTColor32; only a colour with an equal word is equal.
     */
    function EqualsObject(obj: Option<UINTColor32>): (eq: bool)
      reads this, if obj.Some? then {obj.value} else {}
      ensures eq <==> obj.Some? && obj.value.rgba == rgba
    {
      obj.Some? && Equals(obj.value)
    }

    /** The word as eight lower-case hex digits, AABBGGRR. */
    function ToString(): (s: CsString)
      reads this
      ensures |s| == 8
      ensures forall i :: 0 <= i < 8 ==> IsLowerHexDigit(s[i])
      ensures HexValue(s) == rgba as int
    {
      FormatHex8Value(rgba);
      FormatHex8(rgba)
    }

    /** A separate colour with the same word and channels. */
    method Clone() returns (c: UINTColor32)
      requires Valid()
      ensures fresh(c) && c.Valid()
      ensures c.rgba == rgba && c.r == r && c.g == g && c.b == b && c.a == a
    {
      CastRoundTrip(rgba);
      c := new UINTColor32.FromInt(ToInt32(rgba));
    }

    /** Parses hex text into a colour: see ParseWord and the lemmas about it. */
    static method Parse(value: Option<CsString>) returns (c: UINTColor32)
      ensures fresh(c) && c.Valid()
      ensures c.rgba == ParseWord(value)
    {
      if value.None? {
        c := new UINTColor32.FromInt(0);
        return;
      }
      var s := value.value;
      var converted: uint32 := 0;
      var max := if |s| < 8 then |s| else 8;
      for i := 0 to max
        invariant converted == Accumulate(s[..i])
      {
        assert s[..i + 1][..i] == s[..i];
        converted := ShiftLeft4(converted);
        var number := TryParseHexChar(s[i]);
        if number.Some? {
          converted := WrappingAdd(converted, number.value);
        }
      }
      assert s[..max] == Significant(s);
      c := new UINTColor32.FromInt(ToInt32(converted));
    }

    /** `operator ==`: equal packed words. */
    static function Eq(x: UINTColor32, y: UINTColor32): (eq: bool)
      reads x, y
      ensures eq <==> x.rgba == y.rgba
    {
      x.Equals(y)
    }

    /** `operator !=`: the negation of `==`. */
    static function Neq(x: UINTColor32, y: UINTColor32): (ne: bool)
      reads x, y
      ensures ne <==> x.rgba != y.rgba
    {
      !Eq(x, y)
    }

    /** `operator <`: a smaller packed word. */
    static function Less(x: UINTColor32, y: UINTColor32): (lt: bool)
      reads x, y
      ensures lt <==> x.rgba < y.rgba
    {
      x.CompareTo(y) < 0
    }

    /** `operator >`: a larger packed word. */
    static function Greater(x: UINTColor32, y: UINTColor32): (gt: bool)
      reads x, y
      ensures gt <==> x.rgba > y.rgba
    {
      x.CompareTo(y) > 0
    }
  }

  // ---------------------------------------------------------------------------
  // Properties of the colour

  /** CompareTo is a total order on colours, and its zero is Equals. */
  lemma CompareToIsTotalOrder(x: UINTColor32, y: UINTColor32, z: UINTColor32)
    ensures x.CompareTo(x) == 0
    ensures x.CompareTo(y) == -y.CompareTo(x)
    ensures x.CompareTo(y) <= 0 && y.CompareTo(z) <= 0 ==> x.CompareTo(z) <= 0
    ensures x.CompareTo(y) <= 0 || y.CompareTo(x) <= 0
    ensures x.CompareTo(y) == 0 <==> x.Equals(y)
  {
  }

  /** The operators agree with CompareTo's sign, and `<` and `>` are mirror images. */
  lemma OperatorsAgreeWithCompareTo(x: UINTColor32, y: UINTColor32)
    ensures UINTColor32.Less(x, y) <==> x.CompareTo(y) < 0
    ensures UINTColor32.Greater(x, y) <==> x.CompareTo(y) > 0
    ensures UINTColor32.Less(x, y) <==> UINTColor32.Greater(y, x)
    ensures UINTColor32.Eq(x, y) <==> !UINTColor32.Less(x, y) && !UINTColor32.Greater(x, y)
    ensures UINTColor32.Neq(x, y) <==> !UINTColor32.Eq(x, y)
  {
  }

  /** Parsing a colour's text gives a colour equal to it. */
  lemma ParseOfToString(c: UINTColor32)
    ensures ParseWord(Some(c.ToString())) == c.rgba
  {
  }
}
