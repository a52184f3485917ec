/**
 * The fixed-width ASCII line of the Dynon D120/D180 EMS stream and its
 * decoding.  A line is 34 fields laid end to end: Zulu time, manifold
 * pressure, oil, fuel, electrical and RPM readings, three general-purpose
 * inputs and a general-purpose thermocouple (skipped), six EGTs, six CHTs,
 * two contacts and a product id (skipped).  Every other field is read with
 * int(text), and a field int() refuses makes the whole line unreadable.
 */
module EmsDecoder {
  import opened Wrappers
  import opened PyText
  import opened PyInt

  const FieldCount: nat := 34

  /** Width in characters of field k. */
  function Width(k: nat): (w: nat)
    requires k < FieldCount
    ensures 1 <= w <= 8
  {
    if k <= 3 then 2          // Zulu hour, minute, second, 1/64 second counter
    else if k == 4 then 4     // manifold pressure
    else if k <= 11 then 3    // oil temperature and pressure, fuel pressure, volts, amps, RPM, fuel flow
    else if k == 12 then 4    // fuel remaining
    else if k <= 14 then 3    // fuel levels of tanks 1 and 2
    else if k <= 17 then 8    // general-purpose inputs 1 to 3
    else if k <= 24 then 4    // general-purpose thermocouple, EGT 1 to 6
    else if k <= 30 then 3    // CHT 1 to 6
    else if k <= 32 then 1    // contacts 1 and 2
    else 2                    // product id
  }

  /**
   * Where field k starts, written out run by run of equal widths;
   * OffsetIsRunningSum shows it to be the widths of the fields before k,
   * added up.
   */
  function Offset(k: nat): nat
    requires k <= FieldCount
  {
    if k <= 4 then 2 * k
    else if k <= 12 then 12 + 3 * (k - 5)
    else if k <= 13 then 37
    else if k <= 15 then 37 + 3 * (k - 13)
    else if k <= 18 then 43 + 8 * (k - 15)
    else if k <= 25 then 67 + 4 * (k - 18)
    else if k <= 31 then 95 + 3 * (k - 25)
    else if k <= 33 then 113 + (k - 31)
    else 117
  }

  /** Field 0 starts the line, and each field starts where the one before it ends. */
  lemma {:induction false} OffsetIsRunningSum(k: nat)
    requires k < FieldCount
    ensures Offset(0) == 0 && Offset(k + 1) == Offset(k) + Width(k)
  {
  }

  /** Later fields start no earlier. */
  lemma {:induction false} OffsetMonotone(n: nat, m: nat)
    requires n <= m <= FieldCount
    ensures Offset(n) <= Offset(m)
    decreases m
  {
    if n < m {
      OffsetIsRunningSum(m - 1);
      OffsetMonotone(n, m - 1);
    }
  }

  /** The length of a complete line: the widths of all 34 fields added up. */
  const FrameLength: nat := 117

  /** Every field starts inside a complete line, and the last one ends exactly at its end. */
  lemma {:induction false} OffsetBounds(k: nat)
    requires k <= FieldCount
    ensures Offset(k) <= FrameLength && (Offset(k) == FrameLength <==> k == FieldCount)
  {
  }

  /** The general-purpose inputs, the thermocouple and the product id are taken but never converted. */
  predicate IsOpaque(k: nat) {
    15 <= k <= 18 || k == 33
  }

  /** What one line reports, in the units the stream's scale factors give. */
  datatype EmsReading = EmsReading(
    mapInHg: real,
    oilTempF: int,
    oilPsi: int,
    fuelPsi: real,
    volts: real,
    amps: int,
    rpm: int,
    fuelFlowGph: real,
    fuelRemainGal: real,
    fuelLevel1Gal: real,
    fuelLevel2Gal: real,
    egtF: seq<int>,
    chtF: seq<int>,
    contact1: int,
    contact2: int)

  function Min(a: int, b: int): int {
    if a <= b then a else b
  }

  /** s[start:start+n] in Python: clipped to the text, empty past its end. */
  function Slice(s: string, start: nat, n: nat): (v: string)
    ensures |v| == if start >= |s| then 0 else Min(n, |s| - start)
  {
    if start >= |s| then [] else s[start..Min(start + n, |s|)]
  }

  /** The characters of a slice are those of the text from start on. */
  lemma {:induction false} SliceChars(s: string, start: nat, n: nat)
    ensures forall j :: 0 <= j < |Slice(s, start, n)| ==> Slice(s, start, n)[j] == s[start + j]
  {
  }

  /** The text of field k of line s. */
  function Field(s: string, k: nat): string
    requires k < FieldCount
  {
    Slice(s, Offset(k), Width(k))
  }

  /**
   * Field k has all of its width when the line reaches the field's end, is
   * cut short when the line ends inside it, and is empty when the line ends
   * before it.
   */
  lemma {:induction false} FieldLength(s: string, k: nat)
    requires k < FieldCount
    ensures |Field(s, k)| <= Width(k)
    ensures Offset(k) + Width(k) <= |s| ==> |Field(s, k)| == Width(k)
    ensures Offset(k) >= |s| ==> Field(s, k) == []
  {
  }

  /** On a line long enough to hold it, field k is exactly its span of the line. */
  lemma {:induction false} FieldSpan(s: string, k: nat)
    requires k < FieldCount && Offset(k + 1) <= |s|
    ensures Offset(k) <= Offset(k + 1) && Field(s, k) == s[Offset(k)..Offset(k + 1)]
  {
    OffsetIsRunningSum(k);
  }

  /**
   * int(text) in base 10: the conversion every numeric field goes through.
   * It refuses the empty text and any text with a character outside the
   * decimal alphabet.
   */
  function ToInt(t: string): (r: Option<int>)
    ensures r.Some? ==> t != [] && forall k :: 0 <= k < |t| ==> InAlphabet(t[k], 10)
  {
    var r := Parse(t, 10);
    if r.None? then r else ParsedAlphabet(t, 10); r
  }

  /** int() of field k; a field past the end of the line is empty and raises. */
  function FieldInt(s: string, k: nat): (r: Option<int>)
    requires k < FieldCount
    ensures r.Some? ==> Offset(k) < |s|
  {
    ToInt(Field(s, k))
  }

  /** Every field of the line put through conv, in line order. */
  function ConvertFields(s: string, conv: string -> Option<int>): seq<Option<int>> {
    seq(FieldCount, k requires 0 <= k < FieldCount => conv(Field(s, k)))
  }

  /** The entry for field k is field k converted. */
  lemma {:induction false} ConvertFieldsAt(s: string, conv: string -> Option<int>)
    ensures |ConvertFields(s, conv)| == FieldCount
    ensures forall k :: 0 <= k < FieldCount ==> ConvertFields(s, conv)[k] == conv(Field(s, k))
  {
  }

  /** int() of every field of the line, in line order. */
  function FieldValues(s: string): seq<Option<int>> {
    ConvertFields(s, ToInt)
  }

  /** The entry for field k is int() of field k. */
  lemma {:induction false} FieldValuesAt(s: string)
    ensures |FieldValues(s)| == FieldCount
    ensures forall k :: 0 <= k < FieldCount ==> FieldValues(s)[k] == FieldInt(s, k)
  {
    ConvertFieldsAt(s, ToInt);
  }

  /**
   * Fields lo to hi - 1 put through conv, taken in line order: their values,
   * or None from the first field conv refuses.
   */
  function RunValues(s: string, lo: nat, hi: nat, conv: string -> Option<int>): Option<seq<int>>
    requires lo <= hi <= FieldCount
    decreases hi
  {
    if hi == lo then Some([])
    else
      var init :- RunValues(s, lo, hi - 1, conv);
      var x :- conv(Field(s, hi - 1));
      Some(init + [x])
  }

  /** The values in order when every conversion succeeded; None as soon as one failed. */
  function AllSome(xs: seq<Option<int>>): (r: Option<seq<int>>)
    ensures r.Some? <==> forall j :: 0 <= j < |xs| ==> xs[j].Some?
    ensures r.Some? ==> |r.value| == |xs| && forall j :: 0 <= j < |xs| ==> xs[j] == Some(r.value[j])
  {
    if xs == [] then Some([])
    else
      var init :- AllSome(xs[..|xs| - 1]);
      var x :- xs[|xs| - 1];
      Some(init + [x])
  }

  /** AllSome of a longer sequence: the shorter one's values and the last, or None. */
  lemma {:induction false} AllSomeSnoc(xs: seq<Option<int>>, x: Option<int>)
    ensures AllSome(xs + [x]) ==
      if AllSome(xs).Some? && x.Some? then Some(AllSome(xs).value + [x.value]) else None
  {
    assert (xs + [x])[..|xs|] == xs;
  }

  /** A slice is its shorter self with its last element appended. */
  lemma {:induction false} SliceSnoc<T>(xs: seq<T>, lo: nat, hi: nat)
    requires lo < hi <= |xs|
    ensures xs[lo..hi] == xs[lo..hi - 1] + [xs[hi - 1]]
  {
  }

  /** A run read field by field is AllSome of that stretch of the converted fields. */
  lemma {:induction false} RunIsAllSome(s: string, lo: nat, hi: nat, conv: string -> Option<int>)
    requires lo <= hi <= FieldCount
    ensures RunValues(s, lo, hi, conv) == AllSome(ConvertFields(s, conv)[lo..hi])
    decreases hi
  {
    var cs := ConvertFields(s, conv);
    ConvertFieldsAt(s, conv);
    if hi == lo {
      assert cs[lo..hi] == [];
    } else {
      RunIsAllSome(s, lo, hi - 1, conv);
      SliceSnoc(cs, lo, hi);
      AllSomeSnoc(cs[lo..hi - 1], cs[hi - 1]);
    }
  }

  /** A run fails as soon as one of its fields does, whatever follows. */
  lemma {:induction false} RunStops(s: string, lo: nat, k: nat, hi: nat, conv: string -> Option<int>)
    requires lo <= k < hi <= FieldCount && conv(Field(s, k)).None?
    ensures RunValues(s, lo, hi, conv) == None
    decreases hi
  {
    if k < hi - 1 {
      RunStops(s, lo, k, hi - 1, conv);
    }
  }

  /** The unit conversions: hundredths of inHg, tenths of PSI, volts, gallons and GPH, RPM in tens. */
  function Reading(
    mapRaw: int, oilTemp: int, oilPsi: int, fuelPsiTenths: int, voltsTenths: int, amps: int,
    rpmDiv10: int, flowTenths: int, remainTenths: int, level1Tenths: int, level2Tenths: int,
    egt: seq<int>, cht: seq<int>, contact1: int, contact2: int): (r: EmsReading)
    ensures r.mapInHg * 100.0 == mapRaw as real && r.rpm == 10 * rpmDiv10
    ensures r.fuelPsi * 10.0 == fuelPsiTenths as real && r.volts * 10.0 == voltsTenths as real
    ensures r.fuelFlowGph * 10.0 == flowTenths as real && r.fuelRemainGal * 10.0 == remainTenths as real
    ensures r.fuelLevel1Gal * 10.0 == level1Tenths as real && r.fuelLevel2Gal * 10.0 == level2Tenths as real
    ensures r.oilTempF == oilTemp && r.oilPsi == oilPsi && r.amps == amps
    ensures r.egtF == egt && r.chtF == cht && r.contact1 == contact1 && r.contact2 == contact2
  {
    EmsReading(
      mapRaw as real / 100.0, oilTemp, oilPsi, fuelPsiTenths as real / 10.0,
      voltsTenths as real / 10.0, amps, rpmDiv10 * 10, flowTenths as real / 10.0,
      remainTenths as real / 10.0, level1Tenths as real / 10.0, level2Tenths as real / 10.0,
      egt, cht, contact1, contact2)
  }

  /**
   * The reading made of the converted fields: the Zulu time, the scalar
   * readings, six EGTs, six CHTs and the contacts; None where any of them
   * failed.  Field numbers are those of Width; the opaque fields are not
   * looked at.
   */
  function ReadingOf(vals: seq<Option<int>>): (r: Option<EmsReading>)
    requires |vals| == FieldCount
    ensures r.Some? ==> |r.value.egtF| == 6 && |r.value.chtF| == 6
  {
    var zuluHour :- vals[0];
    var zuluMinute :- vals[1];
    var zuluSecond :- vals[2];
    var zuluFraction :- vals[3];
    var mapRaw :- vals[4];
    var oilTemp :- vals[5];
    var oilPsi :- vals[6];
    var fuelPsiTenths :- vals[7];
    var voltsTenths :- vals[8];
    var amps :- vals[9];
    var rpmDiv10 :- vals[10];
    var flowTenths :- vals[11];
    var remainTenths :- vals[12];
    var level1Tenths :- vals[13];
    var level2Tenths :- vals[14];
    var egt :- AllSome(vals[19..25]);
    var cht :- AllSome(vals[25..31]);
    var contact1 :- vals[31];
    var contact2 :- vals[32];
    Some(Reading(mapRaw, oilTemp, oilPsi, fuelPsiTenths, voltsTenths, amps, rpmDiv10, flowTenths,
      remainTenths, level1Tenths, level2Tenths, egt, cht, contact1, contact2))
  }

  /** A reading is made exactly when every numeric field was converted. */
  lemma {:induction false} ReadingOfSucceeds(vals: seq<Option<int>>)
    requires |vals| == FieldCount
    ensures ReadingOf(vals).Some? <==> forall k :: 0 <= k < FieldCount && !IsOpaque(k) ==> vals[k].Some?
  {
    var egt, cht := vals[19..25], vals[25..31];
    if forall k :: 0 <= k < FieldCount && !IsOpaque(k) ==> vals[k].Some? {
      assert vals[0].Some? && vals[1].Some? && vals[2].Some? && vals[3].Some? && vals[4].Some?;
      assert vals[5].Some? && vals[6].Some? && vals[7].Some? && vals[8].Some? && vals[9].Some?;
      assert vals[10].Some? && vals[11].Some? && vals[12].Some? && vals[13].Some? && vals[14].Some?;
      assert vals[31].Some? && vals[32].Some?;
      assert AllSome(egt).Some? by {
        forall j | 0 <= j < 6 ensures egt[j].Some? {
          assert egt[j] == vals[19 + j];
        }
      }
      assert AllSome(cht).Some? by {
        forall j | 0 <= j < 6 ensures cht[j].Some? {
          assert cht[j] == vals[25 + j];
        }
      }
    }
    if ReadingOf(vals).Some? {
      forall k | 0 <= k < FieldCount && !IsOpaque(k)
        ensures vals[k].Some?
      {
        if 19 <= k < 25 {
          assert egt[k - 19] == vals[k];
        } else if 25 <= k < 31 {
          assert cht[k - 25] == vals[k];
        } else {
          assert k in {0, 1, 2, 3, 4, 5, 6, 7, 8, 9, 10, 11, 12, 13, 14, 31, 32};
        }
      }
    }
  }

  /** _parse_ems_line as a function: the reading of line s, or None. */
  function Decode(s: string): (r: Option<EmsReading>)
    ensures r.Some? ==> |r.value.egtF| == 6 && |r.value.chtF| == 6
  {
    ReadingOf(FieldValues(s))
  }

  /**
   * take(n): the next n characters of the line from index i (clipped to the
   * line, as Python slicing is), and the index moved on by n.
   */
  method Take(s: string, i: nat, n: nat) returns (v: string, next: nat)
    ensures v == Slice(s, i, n) && next == i + n
    ensures i + n <= |s| ==> v == s[i..i + n]
  {
    v := Slice(s, i, n);
    next := i + n;
  }

  /** conv(take(n)) at field k, n being the field's width: the field converted, and the index past it. */
  method TakeInt(s: string, i: nat, k: nat, conv: string -> Option<int>) returns (r: Option<int>, next: nat)
    requires k < FieldCount && i == Offset(k)
    ensures r == conv(Field(s, k)) && next == Offset(k + 1)
  {
    OffsetIsRunningSum(k);
    var t;
    t, next := Take(s, i, Width(k));
    r := conv(t);
  }

  /** [conv(take(n)) for _ in range(count)]: fields lo to hi - 1 converted in order, stopping at the first refusal. */
  method TakeInts(s: string, i: nat, lo: nat, hi: nat, conv: string -> Option<int>) returns (r: Option<seq<int>>, next: nat)
    requires lo <= hi <= FieldCount && i == Offset(lo)
    ensures r == RunValues(s, lo, hi, conv)
    ensures r.Some? ==> next == Offset(hi)
  {
    var vals: seq<int> := [];
    next := i;
    for k := lo to hi
      invariant next == Offset(k)
      invariant RunValues(s, lo, k, conv) == Some(vals)
    {
      var v;
      v, next := TakeInt(s, next, k, conv);
      if v.None? {
        RunStops(s, lo, k, hi, conv);
        return None, next;
      }
      vals := vals + [v.value];
    }
    r := Some(vals);
  }

  /**
   * _parse_ems_line(s), with the conversion the numeric fields go through
   * given as toInt (the line reader passes ToInt, that is int()): the fields
   * are taken one after another, i being the index take moves along the
   * line, each numeric one through toInt; the first refusal ends the parse
   * with None.
   */
  method ParseEmsLine(s: string, toInt: string -> Option<int>) returns (r: Option<EmsReading>)
    ensures r == ReadingOf(ConvertFields(s, toInt))
  {
    ConvertFieldsAt(s, toInt);
    var i := 0;
    var zuluHour, zuluMinute, zuluSecond, zuluFraction;
    zuluHour, i :- TakeInt(s, i, 0, toInt);
    zuluMinute, i :- TakeInt(s, i, 1, toInt);
    zuluSecond, i :- TakeInt(s, i, 2, toInt);
    zuluFraction, i :- TakeInt(s, i, 3, toInt);
    var mapRaw, oilTemp, oilPsi, fuelPsiTenths, voltsTenths, amps, rpmDiv10, flowTenths;
    mapRaw, i :- TakeInt(s, i, 4, toInt);
    oilTemp, i :- TakeInt(s, i, 5, toInt);
    oilPsi, i :- TakeInt(s, i, 6, toInt);
    fuelPsiTenths, i :- TakeInt(s, i, 7, toInt);
    voltsTenths, i :- TakeInt(s, i, 8, toInt);
    amps, i :- TakeInt(s, i, 9, toInt);
    rpmDiv10, i :- TakeInt(s, i, 10, toInt);
    flowTenths, i :- TakeInt(s, i, 11, toInt);
    var remainTenths, level1Tenths, level2Tenths;
    remainTenths, i :- TakeInt(s, i, 12, toInt);
    level1Tenths, i :- TakeInt(s, i, 13, toInt);
    level2Tenths, i :- TakeInt(s, i, 14, toInt);
    var gp1, gp2, gp3, gpThermocouple;
    gp1, i := Take(s, i, 8);
    gp2, i := Take(s, i, 8);
    gp3, i := Take(s, i, 8);
    gpThermocouple, i := Take(s, i, 4);
    RunIsAllSome(s, 19, 25, toInt);
    RunIsAllSome(s, 25, 31, toInt);
    var egt, cht, contact1, contact2, productId;
    egt, i :- TakeInts(s, i, 19, 25, toInt);
    cht, i :- TakeInts(s, i, 25, 31, toInt);
    contact1, i :- TakeInt(s, i, 31, toInt);
    contact2, i :- TakeInt(s, i, 32, toInt);
    productId, i := Take(s, i, 2);
    r := Some(Reading(mapRaw, oilTemp, oilPsi, fuelPsiTenths, voltsTenths, amps, rpmDiv10, flowTenths,
      remainTenths, level1Tenths, level2Tenths, egt, cht, contact1, contact2));
  }

}
