/**
 * Python's int(text, base) on a str, the conversion every numeric field of an
 * EMS frame and the checksum pair go through.  The accepted grammar is
 *
 *   space* [+|-] [0x|0X|0o|0O|0b|0B ['_']] digit ('_'? digit)* space*
 *
 * where the radix prefix is recognised only for base 16, 8 and 2 respectively,
 * "digit" is a character whose value is below the base, and "space" is one of
 * TAB, LF, VT, FF, CR and SPACE (IntSpaces): on an ASCII text int() does not
 * skip the separators 0x1C-0x1F that str.strip() removes.  Anything else
 * raises ValueError, modelled here as None.
 */
module PyInt {
  import opened Wrappers
  import opened PyText

  type Base = b: nat | 2 <= b <= 36 witness 10

  /** Value of an alphanumeric character as a digit; 36 stands for "not a digit in any base". */
  function DigitValue(c: char): (d: nat)
    ensures d <= 36
    ensures d < 10 <==> '0' <= c <= '9'
  {
    if '0' <= c <= '9' then c as int - '0' as int
    else if 'a' <= c <= 'z' then c as int - 'a' as int + 10
    else if 'A' <= c <= 'Z' then c as int - 'A' as int + 10
    else 36
  }

  predicate IsDigit(c: char, base: Base) {
    DigitValue(c) < base
  }

  /** The letter of the radix prefix "0x", "0o" or "0b" that int() skips for its own base. */
  predicate IsRadixLetter(c: char, base: Base) {
    (base == 16 && (c == 'x' || c == 'X')) ||
    (base == 8 && (c == 'o' || c == 'O')) ||
    (base == 2 && (c == 'b' || c == 'B'))
  }

  /**
   * Digits with single underscores between them: the text ends in a digit, and
   * what comes before that digit is empty, or again well-formed, or a single
   * '_' after a well-formed text.  So no leading, trailing or doubled '_'.
   */
  predicate WellFormedDigits(v: string, base: Base)
    decreases |v|
  {
    |v| > 0 && IsDigit(v[|v| - 1], base) &&
    var init := v[..|v| - 1];
    (init == [] || WellFormedDigits(init, base) ||
     (|init| >= 2 && init[|init| - 1] == '_' && WellFormedDigits(init[..|init| - 1], base)))
  }

  /** The value of a digit string, most significant digit first, underscores ignored. */
  function DigitsValue(v: string, base: Base): nat {
    if v == [] then 0
    else if v[|v| - 1] == '_' then DigitsValue(v[..|v| - 1], base)
    else DigitsValue(v[..|v| - 1], base) * base + DigitValue(v[|v| - 1])
  }

  /** Skips a radix prefix and the one underscore allowed after it. */
  function DropRadixPrefix(u: string, base: Base): string {
    if |u| >= 2 && u[0] == '0' && IsRadixLetter(u[1], base) then
      if |u| >= 3 && u[2] == '_' then u[3..] else u[2..]
    else u
  }

  /** What follows the sign: an optional radix prefix and the digits. */
  function ParseUnsigned(u: string, base: Base): Option<nat> {
    var v := DropRadixPrefix(u, base);
    if WellFormedDigits(v, base) then Some(DigitsValue(v, base)) else None
  }

  /** A text without surrounding whitespace: an optional sign, then the unsigned part. */
  function ParseSigned(t: string, base: Base): Option<int> {
    if t != [] && t[0] == '-' then
      match ParseUnsigned(t[1..], base)
      case None => None
      case Some(m) => Some(-(m as int))
    else if t != [] && t[0] == '+' then
      match ParseUnsigned(t[1..], base)
      case None => None
      case Some(m) => Some(m as int)
    else
      match ParseUnsigned(t, base)
      case None => None
      case Some(m) => Some(m as int)
  }

  /** int(s, base): Some(value), or None where Python raises ValueError. */
  function Parse(s: string, base: Base): (r: Option<int>)
    ensures r.Some? ==> Strip(s, IntSpaces) != []
    ensures r.Some? && r.value < 0 ==> Strip(s, IntSpaces)[0] == '-'
  {
    ParseSigned(Strip(s, IntSpaces), base)
  }

  /** The characters int() can accept anywhere in its argument. */
  predicate InAlphabet(c: char, base: Base) {
    IsSpace(c, IntSpaces) || c == '+' || c == '-' || c == '_' || IsDigit(c, base) || IsRadixLetter(c, base)
  }

  /** Every character of s that int() does not skip as whitespace survives the stripping. */
  lemma {:induction false} StripKeepsInner(s: string, k: nat)
    requires k < |s| && !IsSpace(s[k], IntSpaces)
    ensures exists j :: 0 <= j < |Strip(s, IntSpaces)| && Strip(s, IntSpaces)[j] == s[k]
  {
    var l := LStrip(s, IntSpaces);
    var a := |s| - |l|;
    assert s[k] == l[k - a];
    assert Strip(s, IntSpaces)[k - a] == s[k];
  }

  /** Every character of the digits part is a digit or an underscore. */
  lemma {:induction false} DigitsAlphabet(v: string, base: Base, j: nat)
    requires WellFormedDigits(v, base) && j < |v|
    ensures IsDigit(v[j], base) || v[j] == '_'
    decreases |v|
  {
    var init := v[..|v| - 1];
    if j < |init| {
      if WellFormedDigits(init, base) {
        DigitsAlphabet(init, base, j);
      } else if j < |init| - 1 {
        DigitsAlphabet(init[..|init| - 1], base, j);
      }
    }
  }

  /** What follows the sign: a radix prefix (whose characters are in the alphabet) and the digits. */
  lemma {:induction false} UnsignedAlphabet(u: string, base: Base, j: nat)
    requires WellFormedDigits(DropRadixPrefix(u, base), base) && j < |u|
    ensures InAlphabet(u[j], base)
  {
    var v := DropRadixPrefix(u, base);
    if v != u && j >= |u| - |v| {
      assert u[j] == v[j - (|u| - |v|)];
      DigitsAlphabet(v, base, j - (|u| - |v|));
    } else if v == u {
      DigitsAlphabet(v, base, j);
    }
  }

  /** A text int() accepts holds no character outside the alphabet of its base. */
  lemma {:induction false} ParsedAlphabet(s: string, base: Base)
    requires Parse(s, base).Some?
    ensures forall k :: 0 <= k < |s| ==> InAlphabet(s[k], base)
  {
    var t := Strip(s, IntSpaces);
    var signed := t != [] && (t[0] == '+' || t[0] == '-');
    var u := if signed then t[1..] else t;
    assert ParseUnsigned(u, base).Some?;
    forall k | 0 <= k < |s| && !IsSpace(s[k], IntSpaces)
      ensures InAlphabet(s[k], base)
    {
      StripKeepsInner(s, k);
      var j :| 0 <= j < |t| && t[j] == s[k];
      if !(signed && j == 0) {
        var ju := if signed then j - 1 else j;
        assert t[j] == u[ju];
        UnsignedAlphabet(u, base, ju);
      }
    }
  }

  /** A text holding a character outside the alphabet makes int() raise. */
  lemma {:induction false} ForeignCharRejected(s: string, base: Base, k: nat)
    requires k < |s| && !InAlphabet(s[k], base)
    ensures Parse(s, base) == None
  {
    if Parse(s, base).Some? {
      ParsedAlphabet(s, base);
    }
  }

  /** The empty text, and a text of whitespace only, are not integers. */
  lemma {:induction false} BlankRejected(s: string, base: Base)
    requires forall k :: 0 <= k < |s| ==> IsSpace(s[k], IntSpaces)
    ensures Parse(s, base) == None
  {
    assert LStrip(s, IntSpaces) == [];
  }

  /** The unsigned part of int() on a single character. */
  lemma {:induction false} UnsignedSingle(c: char, base: Base)
    ensures ParseUnsigned([c], base) == if IsDigit(c, base) then Some(DigitValue(c)) else None
  {
    var u := [c];
    assert DropRadixPrefix(u, base) == u;
    assert u[..0] == [];
    if IsDigit(c, base) {
      assert u[..0] == [];
      assert DigitsValue(u, base) == DigitsValue([], base) * base + DigitValue(c);
    }
  }

  /** Two characters are well-formed digits exactly when both are digits. */
  lemma {:induction false} WellFormedPair(a: char, b: char, base: Base)
    ensures WellFormedDigits([a, b], base) <==> IsDigit(a, base) && IsDigit(b, base)
  {
    var s := [a, b];
    assert s[..1] == [a] && [a][..0] == [];
  }

  /** The unsigned part of int(text, 16) on two characters. */
  lemma {:induction false} UnsignedHexPair(a: char, b: char)
    ensures ParseUnsigned([a, b], 16) ==
      if IsDigit(a, 16) && IsDigit(b, 16) then Some(16 * DigitValue(a) + DigitValue(b)) else None
  {
    var s := [a, b];
    if a == '0' && IsRadixLetter(b, 16) {
      assert DropRadixPrefix(s, 16) == [];
    } else {
      assert DropRadixPrefix(s, 16) == s;
      WellFormedPair(a, b, 16);
      if IsDigit(a, 16) && IsDigit(b, 16) {
        assert s[..1] == [a] && [a][..0] == [];
        assert DigitsValue(s, 16) == DigitsValue([a], 16) * 16 + DigitValue(b);
      }
    }
  }

  /** What int(text, 16) makes of a one-character text. */
  lemma {:induction false} HexSingle(c: char)
    ensures Parse([c], 16) == if IsDigit(c, 16) then Some(DigitValue(c) as int) else None
  {
    if IsSpace(c, IntSpaces) {
      assert LStrip([c], IntSpaces) == [];
    } else {
      StripKeeps([c], IntSpaces);
      UnsignedSingle(c, 16);
      if c == '+' || c == '-' {
        assert [c][1..] == [];
        assert ParseUnsigned([], 16) == None;
      }
    }
  }

  /** Whitespace before a single character is stripped away. */
  lemma {:induction false} StripLeadingSpace(a: char, b: char)
    requires IsSpace(a, IntSpaces)
    ensures Strip([a, b], IntSpaces) == Strip([b], IntSpaces)
  {
    assert [a, b][1..] == [b];
    assert LStrip([a, b], IntSpaces) == LStrip([b], IntSpaces);
  }

  /** Whitespace after a single non-space character is stripped away. */
  lemma {:induction false} StripTrailingSpace(a: char, b: char)
    requires !IsSpace(a, IntSpaces) && IsSpace(b, IntSpaces)
    ensures Strip([a, b], IntSpaces) == Strip([a], IntSpaces)
  {
    assert [a, b][..1] == [a];
    assert RStrip([a, b], IntSpaces) == RStrip([a], IntSpaces);
  }

  /**
   * What int(text, 16) makes of a two-character text: two hex digits, or a
   * single hex digit led by whitespace or a sign, or followed by whitespace.
   * Everything else raises.
   */
  function HexPairValue(a: char, b: char): Option<int> {
    if IsDigit(a, 16) && IsDigit(b, 16) then Some(16 * DigitValue(a) + DigitValue(b))
    else if (IsSpace(a, IntSpaces) || a == '+') && IsDigit(b, 16) then Some(DigitValue(b))
    else if a == '-' && IsDigit(b, 16) then Some(-(DigitValue(b) as int))
    else if IsDigit(a, 16) && IsSpace(b, IntSpaces) then Some(DigitValue(a))
    else None
  }

  lemma {:induction false} HexPairLeadSpace(a: char, b: char)
    requires IsSpace(a, IntSpaces)
    ensures Parse([a, b], 16) == HexPairValue(a, b)
  {
    StripLeadingSpace(a, b);
    HexSingle(b);
  }

  lemma {:induction false} HexPairTrailSpace(a: char, b: char)
    requires !IsSpace(a, IntSpaces) && IsSpace(b, IntSpaces)
    ensures Parse([a, b], 16) == HexPairValue(a, b)
  {
    StripTrailingSpace(a, b);
    assert Parse([a, b], 16) == Parse([a], 16);
    HexSingle(a);
    assert !IsDigit(b, 16);
  }

  lemma {:induction false} HexPairSigned(a: char, b: char)
    requires !IsSpace(b, IntSpaces) && (a == '+' || a == '-')
    ensures Parse([a, b], 16) == HexPairValue(a, b)
  {
    StripKeeps([a, b], IntSpaces);
    assert [a, b][1..] == [b];
    UnsignedSingle(b, 16);
  }

  lemma {:induction false} HexPairBare(a: char, b: char)
    requires !IsSpace(a, IntSpaces) && !IsSpace(b, IntSpaces) && a != '+' && a != '-'
    ensures Parse([a, b], 16) == HexPairValue(a, b)
  {
    StripKeeps([a, b], IntSpaces);
    UnsignedHexPair(a, b);
  }

  /** Every two-character text and what int(text, 16) makes of it. */
  lemma {:induction false} HexPair(a: char, b: char)
    ensures Parse([a, b], 16) == HexPairValue(a, b)
  {
    if IsSpace(a, IntSpaces) {
      HexPairLeadSpace(a, b);
    } else if IsSpace(b, IntSpaces) {
      HexPairTrailSpace(a, b);
    } else if a == '+' || a == '-' {
      HexPairSigned(a, b);
    } else {
      HexPairBare(a, b);
    }
  }

  /**
   * An ASCII separator (0x1C-0x1F) next to a hex digit: str.strip() would drop
   * it, but int() does not skip it and raises.
   */
  lemma {:induction false} SeparatorNotSkipped(c: char, d: char)
    requires 0x1C <= c as int <= 0x1F && IsDigit(d, 16)
    ensures Strip([c, d], StrSpaces) == [d]
    ensures Parse([c, d], 16) == None && Parse([d, c], 16) == None
  {
    SeparatorBeforeChar(c, d);
    assert HexPairValue(c, d) == None && HexPairValue(d, c) == None;
    HexPair(c, d);
    HexPair(d, c);
  }

  // Fixed-width decimal text, the form the instrument sends its fields in.

  function Pow10(n: nat): (p: nat)
    ensures p >= 1
  {
    if n == 0 then 1 else 10 * Pow10(n - 1)
  }

  function DecimalChar(d: nat): (c: char)
    requires d < 10
    ensures '0' <= c <= '9' && DigitValue(c) == d
  {
    ('0' as int + d) as char
  }

  /** The last w decimal digits of n, zero-padded, most significant first. */
  function ZeroPadded(n: nat, w: nat): (t: string)
    ensures |t| == w
  {
    if w == 0 then [] else ZeroPadded(n / 10, w - 1) + [DecimalChar(n % 10)]
  }

  /** Right-justified, zero-padded text of v in w characters; a negative value spends one on '-'. */
  function FixedWidth(v: int, w: nat): (t: string)
    ensures |t| == w
  {
    if v >= 0 then ZeroPadded(v, w)
    else if w == 0 then []
    else ['-'] + ZeroPadded(-v, w - 1)
  }

  /** A character of the fixed-width form: a decimal digit or the minus sign. */
  predicate IsNumeral(c: char) {
    c == '-' || '0' <= c <= '9'
  }

  lemma {:induction false} FixedWidthNumerals(v: int, w: nat)
    ensures forall k :: 0 <= k < w ==> IsNumeral(FixedWidth(v, w)[k])
  {
    if v >= 0 {
      ZeroPaddedDigits(v, w);
    } else if w > 0 {
      ZeroPaddedDigits(-v, w - 1);
    }
  }

  /** v can be written in w characters this way. */
  predicate Fits(v: int, w: nat) {
    if v >= 0 then 1 <= w && v < Pow10(w) else 2 <= w && -v < Pow10(w - 1)
  }

  lemma {:induction false} AllDigitsWellFormed(v: string, base: Base)
    requires v != [] && forall k :: 0 <= k < |v| ==> IsDigit(v[k], base)
    ensures WellFormedDigits(v, base)
    decreases |v|
  {
    var init := v[..|v| - 1];
    if init != [] {
      AllDigitsWellFormed(init, base);
    }
  }

  lemma {:induction false} ZeroPaddedDigits(n: nat, w: nat)
    ensures forall k :: 0 <= k < w ==> '0' <= ZeroPadded(n, w)[k] <= '9'
  {
    if w > 0 {
      ZeroPaddedDigits(n / 10, w - 1);
    }
  }

  lemma {:induction false} ZeroPaddedValue(n: nat, w: nat)
    requires n < Pow10(w)
    ensures DigitsValue(ZeroPadded(n, w), 10) == n
  {
    if w > 0 {
      var t := ZeroPadded(n, w);
      var init := ZeroPadded(n / 10, w - 1);
      assert n / 10 < Pow10(w - 1);
      ZeroPaddedValue(n / 10, w - 1);
      assert t[..|t| - 1] == init;
      assert DigitsValue(t, 10) == DigitsValue(init, 10) * 10 + n % 10;
    } else {
      assert n == 0;
    }
  }

  /** The unsigned part of int() reads a zero-padded run back as the number it was written from. */
  lemma {:induction false} UnsignedPadded(n: nat, w: nat)
    requires 1 <= w && n < Pow10(w)
    ensures ParseUnsigned(ZeroPadded(n, w), 10) == Some(n)
    ensures '0' <= ZeroPadded(n, w)[0] <= '9' && '0' <= ZeroPadded(n, w)[w - 1] <= '9'
  {
    var t := ZeroPadded(n, w);
    assert WellFormedDigits(t, 10) && '0' <= t[0] <= '9' && '0' <= t[w - 1] <= '9' by {
      ZeroPaddedDigits(n, w);
      AllDigitsWellFormed(t, 10);
    }
    assert DropRadixPrefix(t, 10) == t;
    ZeroPaddedValue(n, w);
  }

  /** int() on a text that has no surrounding whitespace and no sign. */
  lemma {:induction false} BareValue(t: string, base: Base, x: nat)
    requires t != [] && !IsSpace(t[0], IntSpaces) && !IsSpace(t[|t| - 1], IntSpaces) && t[0] != '-' && t[0] != '+'
    requires ParseUnsigned(t, base) == Some(x)
    ensures Parse(t, base) == Some(x as int)
  {
    StripKeeps(t, IntSpaces);
  }

  /** int() on a '-' and a text that has no whitespace at its end. */
  lemma {:induction false} NegatedValue(t: string, base: Base, x: nat)
    requires t != [] && !IsSpace(t[|t| - 1], IntSpaces)
    requires ParseUnsigned(t, base) == Some(x)
    ensures Parse(['-'] + t, base) == Some(-(x as int))
  {
    var m := ['-'] + t;
    assert Parse(m, base) == ParseSigned(m, base) by {
      assert m[|m| - 1] == t[|t| - 1];
      StripKeeps(m, IntSpaces);
    }
    assert m[0] == '-' && m[1..] == t;
    MinusSign(m, base, x);
  }

  /** A leading '-' negates what the rest of the text reads as. */
  lemma {:induction false} MinusSign(m: string, base: Base, x: nat)
    requires m != [] && m[0] == '-' && ParseUnsigned(m[1..], base) == Some(x)
    ensures ParseSigned(m, base) == Some(-(x as int))
  {
  }

  /** int() reads a zero-padded run back as the number it was written from. */
  lemma {:induction false} PaddedRoundTrip(n: nat, w: nat)
    requires 1 <= w && n < Pow10(w)
    ensures Parse(ZeroPadded(n, w), 10) == Some(n)
  {
    UnsignedPadded(n, w);
    BareValue(ZeroPadded(n, w), 10, n);
  }

  /** int() reads a '-' and a zero-padded run back as the negated number. */
  lemma {:induction false} NegatedPaddedRoundTrip(n: nat, w: nat)
    requires 1 <= w && n < Pow10(w)
    ensures Parse(['-'] + ZeroPadded(n, w), 10) == Some(-(n as int))
  {
    UnsignedPadded(n, w);
    NegatedValue(ZeroPadded(n, w), 10, n);
  }

  /** int() reads back exactly the value a fixed-width field was written from. */
  lemma {:induction false} FixedWidthRoundTrip(v: int, w: nat)
    requires Fits(v, w)
    ensures Parse(FixedWidth(v, w), 10) == Some(v)
  {
    if v >= 0 {
      PaddedRoundTrip(v, w);
    } else {
      NegatedPaddedRoundTrip(-v, w - 1);
    }
  }

  /** A signed field as the instrument pads it: int() reads "-05" as -5. */
  lemma {:induction false} SignedFieldExample()
    ensures Parse("-05", 10) == Some(-5)
  {
    assert FixedWidth(-5, 3) == "-05" by {
      assert ZeroPadded(5, 2) == ZeroPadded(0, 1) + ['5'];
      assert ZeroPadded(0, 1) == ZeroPadded(0, 0) + ['0'];
    }
    FixedWidthRoundTrip(-5, 3);
  }

  /** int() accepts a single underscore between digits. */
  lemma {:induction false} UnderscoreExample()
    ensures Parse("1_0", 10) == Some(10)
  {
    var t := "1_0";
    assert t[..2] == "1_" && "1_"[..1] == "1" && "1"[..0] == "";
    assert WellFormedDigits("1", 10);
    assert WellFormedDigits(t, 10);
    assert DigitsValue(t, 10) == 10;
    assert DropRadixPrefix(t, 10) == t;
    BareValue(t, 10, 10);
  }

  /** A decimal point, an empty field, and a field led by a separator byte make int() raise. */
  lemma {:induction false} RejectedExamples()
    ensures Parse("2.5", 10) == None
    ensures Parse("", 10) == None
    ensures Parse([0x1F as char] + "12", 10) == None
  {
    ForeignCharRejected("2.5", 10, 1);
    BlankRejected("", 10);
    ForeignCharRejected([0x1F as char] + "12", 10, 0);
  }
}
