/**
 * The self-zeroing checksum of a Dynon D120/D180 EMS line: the line body ends
 * in two hexadecimal characters whose value, added to the byte sum of
 * everything before them, gives zero modulo 256.  The line itself ends in
 * CR LF, which is not part of the body.
 */
module EmsChecksum {
  import opened Wrappers
  import opened PyText
  import opened PyInt

  type Byte = b: int | 0 <= b < 256

  const CR: Byte := 13
  const LF: Byte := 10

  predicate IsLineEnd(b: Byte) {
    b == CR || b == LF
  }

  /** bytes.rstrip(b"\r\n"): every trailing CR and LF goes, whatever their order. */
  function RStripLineEnd(raw: seq<Byte>): (body: seq<Byte>)
    ensures |body| <= |raw| && body == raw[..|body|]
    ensures body == [] || !IsLineEnd(body[|body| - 1])
    ensures forall k :: |body| <= k < |raw| ==> IsLineEnd(raw[k])
  {
    if raw != [] && IsLineEnd(raw[|raw| - 1]) then RStripLineEnd(raw[..|raw| - 1]) else raw
  }

  /** sum() over a bytes object: every byte adds at most 255. */
  function Sum(p: seq<Byte>): (total: nat)
    ensures total <= 255 * |p|
  {
    if p == [] then 0 else Sum(p[..|p| - 1]) + p[|p| - 1]
  }

  /**
   * int(body[-2:].decode("ascii"), 16): a byte of 128 or more makes the ASCII
   * decode raise, anything int() refuses raises too; both are None here.  The
   * two characters are read by HexPairValue, which PairValueIsInt shows to be
   * int() on two characters.
   */
  function PairValue(hi: Byte, lo: Byte): (r: Option<int>)
    ensures r.Some? ==> hi < 128 && lo < 128
    ensures r.Some? ==> -15 <= r.value <= 255
  {
    if hi >= 128 || lo >= 128 then None else HexPairValue(hi as char, lo as char)
  }

  /** PairValue is int(text, 16) on the two ASCII characters. */
  lemma {:induction false} PairValueIsInt(hi: Byte, lo: Byte)
    requires hi < 128 && lo < 128
    ensures PairValue(hi, lo) == Parse([hi as char, lo as char], 16)
  {
    HexPair(hi as char, lo as char);
  }

  /** The check a received line must pass before its fields are read. */
  function ChecksumOk(raw: seq<Byte>): (ok: bool)
    ensures ok ==> |RStripLineEnd(raw)| >= 4
    ensures ok ==> var body := RStripLineEnd(raw); body[|body| - 2] < 128 && body[|body| - 1] < 128
  {
    var body := RStripLineEnd(raw);
    if |body| < 4 then false
    else
      match PairValue(body[|body| - 2], body[|body| - 1])
      case None => false
      case Some(chk) => (Sum(body[..|body| - 2]) + chk) % 256 == 0
  }

  /** Adding a multiple of 256 does not change a value modulo 256. */
  lemma {:induction false} ModShift(q: int, x: int)
    ensures (256 * q + x) % 256 == x % 256
  {
  }

  /** Of the byte values, exactly one brings a sum to a multiple of 256. */
  lemma {:induction false} ZeroingByte(a: nat, c: int)
    requires 0 <= c < 256
    ensures (a + c) % 256 == 0 <==> c == (256 - a % 256) % 256
  {
    var r := a % 256;
    assert a == 256 * (a / 256) + r;
    ModShift(a / 256, r + c);
  }

  /** The checksum byte that zeroes the sum of payload p. */
  function ChecksumFor(p: seq<Byte>): (c: Byte)
    ensures (Sum(p) + c) % 256 == 0
  {
    ZeroingByte(Sum(p), (256 - Sum(p) % 256) % 256);
    (256 - Sum(p) % 256) % 256
  }

  /** Upper-case hexadecimal character for a digit value below 16, as a byte. */
  function HexDigit(d: nat): (b: Byte)
    requires d < 16
    ensures b < 128 && IsDigit(b as char, 16) && DigitValue(b as char) == d
  {
    if d < 10 then 48 + d else 55 + d
  }

  /** A payload as the instrument sends it: checksum pair, then CR LF. */
  function Seal(p: seq<Byte>): (line: seq<Byte>)
    ensures |line| == |p| + 4 && line[..|p|] == p
  {
    var c := ChecksumFor(p);
    p + [HexDigit(c / 16), HexDigit(c % 16), CR, LF]
  }

  // Sums

  lemma {:induction false} SumAppend(p: seq<Byte>, q: seq<Byte>)
    ensures Sum(p + q) == Sum(p) + Sum(q)
    decreases |q|
  {
    if q != [] {
      var q' := q[..|q| - 1];
      assert (p + q)[..|p + q| - 1] == p + q';
      SumAppend(p, q');
    } else {
      assert p + q == p;
    }
  }

  /** Replacing one byte changes the sum by exactly the difference. */
  lemma {:induction false} SumUpdate(p: seq<Byte>, k: nat, x: Byte)
    requires k < |p|
    ensures Sum(p[k := x]) == Sum(p) - p[k] + x
  {
    assert p == p[..k] + [p[k]] + p[k + 1..];
    assert p[k := x] == p[..k] + [x] + p[k + 1..];
    SumAppend(p[..k] + [p[k]], p[k + 1..]);
    SumAppend(p[..k] + [x], p[k + 1..]);
    SumAppend(p[..k], [p[k]]);
    SumAppend(p[..k], [x]);
    assert Sum([x]) == x by { assert [x][..0] == []; }
    assert Sum([p[k]]) == p[k] by { assert [p[k]][..0] == []; }
  }

  // Properties of the check

  /** ChecksumFor gives the only byte value that zeroes the sum. */
  lemma {:induction false} ChecksumUnique(p: seq<Byte>, c: int)
    requires 0 <= c < 256
    ensures (Sum(p) + c) % 256 == 0 <==> c == ChecksumFor(p)
  {
    ZeroingByte(Sum(p), c);
  }

  /** Trailing CR and LF bytes, however many, never change the verdict. */
  lemma {:induction false} LineEndsIgnored(raw: seq<Byte>, ends: seq<Byte>)
    requires forall k :: 0 <= k < |ends| ==> IsLineEnd(ends[k])
    ensures RStripLineEnd(raw + ends) == RStripLineEnd(raw)
    ensures ChecksumOk(raw + ends) == ChecksumOk(raw)
    decreases |ends|
  {
    if ends != [] {
      var e := ends[..|ends| - 1];
      assert (raw + ends)[..|raw + ends| - 1] == raw + e;
      LineEndsIgnored(raw, e);
    } else {
      assert raw + ends == raw;
    }
  }

  /** The body of a sealed line is the payload and its checksum pair. */
  lemma {:induction false} SealedBody(p: seq<Byte>)
    ensures RStripLineEnd(Seal(p)) == p + [HexDigit(ChecksumFor(p) / 16), HexDigit(ChecksumFor(p) % 16)]
  {
    var c := ChecksumFor(p);
    var body := p + [HexDigit(c / 16), HexDigit(c % 16)];
    assert Seal(p) == body + [CR, LF];
    LineEndsIgnored(body, [CR, LF]);
    assert RStripLineEnd(body) == body by {
      assert !IsLineEnd(body[|body| - 1]);
    }
  }

  /** Two ASCII hexadecimal digits are read as the byte they spell. */
  lemma {:induction false} HexDigitsValue(hi: Byte, lo: Byte)
    requires hi < 128 && lo < 128 && IsDigit(hi as char, 16) && IsDigit(lo as char, 16)
    ensures PairValue(hi, lo) == Some(16 * DigitValue(hi as char) + DigitValue(lo as char))
  {
  }

  /**
   * The verdict on every line whose body (after CR and LF are stripped) ends
   * in the pair hi lo: it passes exactly when the payload p has at least two
   * bytes, the pair is ASCII that int(text, 16) accepts, and the payload sum
   * plus that value is a multiple of 256.
   */
  lemma {:induction false} ChecksumCases(raw: seq<Byte>, p: seq<Byte>, hi: Byte, lo: Byte)
    requires RStripLineEnd(raw) == p + [hi, lo]
    ensures ChecksumOk(raw) <==>
      |p| >= 2 && PairValue(hi, lo).Some? && (Sum(p) + PairValue(hi, lo).value) % 256 == 0
  {
    PairSplit(p, hi, lo);
  }

  /** A pair that is not ASCII, or that int(text, 16) refuses, fails the line whatever the payload. */
  lemma {:induction false} PairRefused(raw: seq<Byte>, p: seq<Byte>, hi: Byte, lo: Byte)
    requires RStripLineEnd(raw) == p + [hi, lo] && PairValue(hi, lo).None?
    ensures !ChecksumOk(raw)
  {
    ChecksumCases(raw, p, hi, lo);
  }

  /** A separator byte 0x1C-0x1F before a single hex digit is no checksum pair: the line fails. */
  lemma {:induction false} SeparatorPairRefused(p: seq<Byte>, sep: Byte, d: Byte)
    requires 0x1C <= sep <= 0x1F && d < 128 && IsDigit(d as char, 16)
    ensures !ChecksumOk(p + [sep, d, CR, LF])
  {
    assert PairValue(sep, d) == None;
    FramedBody(p, sep, d);
    PairRefused(p + [sep, d, CR, LF], p, sep, d);
  }

  /** A body is its payload followed by the two checksum characters. */
  lemma {:induction false} PairSplit(p: seq<Byte>, hi: Byte, lo: Byte)
    ensures var q := p + [hi, lo];
      |q| == |p| + 2 && q[|q| - 2] == hi && q[|q| - 1] == lo && q[..|q| - 2] == p
  {
  }

  /** The verdict on a line whose body is payload p and a pair read as chk. */
  lemma {:induction false} Verdict(raw: seq<Byte>, p: seq<Byte>, hi: Byte, lo: Byte, chk: int)
    requires RStripLineEnd(raw) == p + [hi, lo] && |p| >= 2
    requires PairValue(hi, lo) == Some(chk)
    ensures ChecksumOk(raw) == ((Sum(p) + chk) % 256 == 0)
  {
    PairSplit(p, hi, lo);
  }

  /**
   * Where the pair is two hexadecimal digits, the line passes exactly when
   * the pair's value is the checksum of the payload before it.
   */
  lemma {:induction false} HexPairCheck(raw: seq<Byte>, p: seq<Byte>, hi: Byte, lo: Byte)
    requires RStripLineEnd(raw) == p + [hi, lo] && |p| >= 2
    requires hi < 128 && lo < 128 && IsDigit(hi as char, 16) && IsDigit(lo as char, 16)
    ensures ChecksumOk(raw) <==> 16 * DigitValue(hi as char) + DigitValue(lo as char) == ChecksumFor(p)
  {
    var v := 16 * DigitValue(hi as char) + DigitValue(lo as char);
    assert ChecksumOk(raw) == ((Sum(p) + v) % 256 == 0) by {
      HexDigitsValue(hi, lo);
      Verdict(raw, p, hi, lo, v);
    }
    ChecksumUnique(p, v);
  }

  /** A sealed payload passes the check exactly when the body is long enough, two payload bytes. */
  lemma {:induction false} SealAccepted(p: seq<Byte>)
    ensures ChecksumOk(Seal(p)) <==> |p| >= 2
  {
    var c := ChecksumFor(p);
    var hi, lo := HexDigit(c / 16), HexDigit(c % 16);
    SealedBody(p);
    if |p| >= 2 {
      HexPairCheck(Seal(p), p, hi, lo);
    }
  }

  /** A multiple of 256 moved by less than 256, but by something, is no longer one. */
  lemma {:induction false} ShiftBreaksZero(a: int, d: int)
    requires a % 256 == 0 && -256 < d < 256 && d != 0
    ensures (a + d) % 256 != 0
  {
  }

  /** The body of payload p, a pair, then CR LF. */
  lemma {:induction false} FramedBody(p: seq<Byte>, hi: Byte, lo: Byte)
    requires !IsLineEnd(lo)
    ensures RStripLineEnd(p + [hi, lo, CR, LF]) == p + [hi, lo]
  {
    var body := p + [hi, lo];
    assert p + [hi, lo, CR, LF] == body + [CR, LF];
    LineEndsIgnored(body, [CR, LF]);
    assert RStripLineEnd(body) == body by {
      assert !IsLineEnd(body[|body| - 1]);
    }
  }

  /** A line whose pair is anything but the checksum of the payload before it fails the check. */
  lemma {:induction false} MisSealedRejected(q: seq<Byte>, c: Byte)
    requires |q| < 2 || c != ChecksumFor(q)
    ensures !ChecksumOk(q + [HexDigit(c / 16), HexDigit(c % 16), CR, LF])
  {
    var hi, lo := HexDigit(c / 16), HexDigit(c % 16);
    FramedBody(q, hi, lo);
    if |q| >= 2 {
      HexPairCheck(q + [hi, lo, CR, LF], q, hi, lo);
    }
  }

  /** Changing any one payload byte of a sealed line makes it fail the check. */
  lemma {:induction false} CorruptionDetected(p: seq<Byte>, k: nat, x: Byte)
    requires k < |p| && x != p[k]
    ensures !ChecksumOk(Seal(p)[k := x])
  {
    var c := ChecksumFor(p);
    var q := p[k := x];
    assert Seal(p)[k := x] == q + [HexDigit(c / 16), HexDigit(c % 16), CR, LF];
    assert c != ChecksumFor(q) by {
      SumUpdate(p, k, x);
      ShiftBreaksZero(Sum(p) + c, x - p[k]);
      ChecksumUnique(q, c);
    }
    MisSealedRejected(q, c);
  }

  /** int() reads '-' and one hex digit as the negated digit. */
  lemma {:induction false} NegativePairValue(minus: Byte, d: Byte)
    requires minus == '-' as Byte && d < 128 && IsDigit(d as char, 16)
    ensures PairValue(minus, d) == Some(-(DigitValue(d as char) as int))
  {
  }

  /**
   * int() also accepts a pair made of '-' and one hex digit, so such a line
   * passes when the payload sum minus that digit is a multiple of 256.
   */
  lemma {:induction false} NegativePairAccepted(raw: seq<Byte>, p: seq<Byte>, minus: Byte, d: Byte)
    requires RStripLineEnd(raw) == p + [minus, d] && |p| >= 2
    requires minus == '-' as Byte && d < 128 && IsDigit(d as char, 16)
    ensures ChecksumOk(raw) <==> (Sum(p) as int - DigitValue(d as char)) % 256 == 0
  {
    NegativePairValue(minus, d);
    Verdict(raw, p, minus, d, -(DigitValue(d as char) as int));
  }
}
