/**
 * What the decoder of an EMS line promises: which lines it accepts, what
 * each reading means in terms of the line's fields, which parts of the line
 * it never looks at, and that a line written field by field in the
 * instrument's fixed-width format is read back as the values it was
 * written from.
 */
module EmsDecoderFacts {
  import opened Wrappers
  import opened PyText
  import opened PyInt
  import opened EmsDecoder

  /** Every field that is converted at all is one int() accepts. */
  predicate NumericFieldsOk(s: string) {
    forall k :: 0 <= k < FieldCount && !IsOpaque(k) ==> FieldInt(s, k).Some?
  }

  // The reading made of converted fields

  /** AllSome of a run of successes is the run of their values. */
  lemma {:induction false} AllSomeValues(xs: seq<Option<int>>, ys: seq<int>)
    requires |xs| == |ys| && forall j :: 0 <= j < |xs| ==> xs[j] == Some(ys[j])
    ensures AllSome(xs) == Some(ys)
  {
    var r := AllSome(xs);
    assert r.Some?;
    assert r.value == ys;
  }

  /** Where every numeric field was converted, the reading holds those values, unit-converted. */
  lemma {:induction false} ReadingOfValues(vals: seq<Option<int>>, ints: seq<int>)
    requires |vals| == FieldCount && |ints| == FieldCount
    requires forall k :: 0 <= k < FieldCount && !IsOpaque(k) ==> vals[k] == Some(ints[k])
    ensures ReadingOf(vals) == Some(Reading(ints[4], ints[5], ints[6], ints[7], ints[8], ints[9], ints[10],
      ints[11], ints[12], ints[13], ints[14], ints[19..25], ints[25..31], ints[31], ints[32]))
  {
    assert vals[0] == Some(ints[0]) && vals[1] == Some(ints[1]) && vals[2] == Some(ints[2]);
    assert vals[3] == Some(ints[3]) && vals[4] == Some(ints[4]) && vals[5] == Some(ints[5]);
    assert vals[6] == Some(ints[6]) && vals[7] == Some(ints[7]) && vals[8] == Some(ints[8]);
    assert vals[9] == Some(ints[9]) && vals[10] == Some(ints[10]) && vals[11] == Some(ints[11]);
    assert vals[12] == Some(ints[12]) && vals[13] == Some(ints[13]) && vals[14] == Some(ints[14]);
    assert vals[31] == Some(ints[31]) && vals[32] == Some(ints[32]);
    AllSomeValues(vals[19..25], ints[19..25]);
    AllSomeValues(vals[25..31], ints[25..31]);
  }

  /** The reading depends on the numeric fields only. */
  lemma {:induction false} ReadingOfNumeric(vals: seq<Option<int>>, others: seq<Option<int>>)
    requires |vals| == FieldCount && |others| == FieldCount
    requires forall k :: 0 <= k < FieldCount && !IsOpaque(k) ==> vals[k] == others[k]
    ensures ReadingOf(vals) == ReadingOf(others)
  {
    assert vals[19..25] == others[19..25];
    assert vals[25..31] == others[25..31];
    assert vals[0] == others[0] && vals[1] == others[1] && vals[2] == others[2] && vals[3] == others[3];
    assert vals[4] == others[4] && vals[5] == others[5] && vals[6] == others[6] && vals[7] == others[7];
    assert vals[8] == others[8] && vals[9] == others[9] && vals[10] == others[10] && vals[11] == others[11];
    assert vals[12] == others[12] && vals[13] == others[13] && vals[14] == others[14];
    assert vals[31] == others[31] && vals[32] == others[32];
  }

  /** What each member of a reading is made of. */
  lemma {:induction false} ReadingOfFields(vals: seq<Option<int>>)
    requires |vals| == FieldCount && ReadingOf(vals).Some?
    ensures forall k :: 0 <= k < FieldCount && !IsOpaque(k) ==> vals[k].Some?
    ensures ReadingOf(vals).value.mapInHg * 100.0 == vals[4].value as real
    ensures ReadingOf(vals).value.oilTempF == vals[5].value && ReadingOf(vals).value.oilPsi == vals[6].value
    ensures ReadingOf(vals).value.fuelPsi * 10.0 == vals[7].value as real
    ensures ReadingOf(vals).value.volts * 10.0 == vals[8].value as real
    ensures ReadingOf(vals).value.amps == vals[9].value && ReadingOf(vals).value.rpm == 10 * vals[10].value
    ensures ReadingOf(vals).value.fuelFlowGph * 10.0 == vals[11].value as real
    ensures ReadingOf(vals).value.fuelRemainGal * 10.0 == vals[12].value as real
    ensures ReadingOf(vals).value.fuelLevel1Gal * 10.0 == vals[13].value as real
    ensures ReadingOf(vals).value.fuelLevel2Gal * 10.0 == vals[14].value as real
    ensures |ReadingOf(vals).value.egtF| == 6 && forall j :: 0 <= j < 6 ==> vals[19 + j] == Some(ReadingOf(vals).value.egtF[j])
    ensures |ReadingOf(vals).value.chtF| == 6 && forall j :: 0 <= j < 6 ==> vals[25 + j] == Some(ReadingOf(vals).value.chtF[j])
    ensures ReadingOf(vals).value.contact1 == vals[31].value && ReadingOf(vals).value.contact2 == vals[32].value
  {
    ReadingOfSucceeds(vals);
    var ints := seq(FieldCount, k requires 0 <= k < FieldCount => if vals[k].Some? then vals[k].value else 0);
    ReadingOfValues(vals, ints);
    var r := ReadingOf(vals).value;
    assert r.egtF == ints[19..25];
    assert r.chtF == ints[25..31];
  }

  // The decoder on a line

  /** A line decodes exactly when int() accepts every numeric field of it. */
  lemma {:induction false} DecodeSucceeds(s: string)
    ensures Decode(s).Some? <==> NumericFieldsOk(s)
  {
    FieldValuesAt(s);
    ReadingOfSucceeds(FieldValues(s));
  }

  /**
   * What a decoded reading means: each member is the integer of its field,
   * scaled by the field's unit (hundredths of inHg, tenths of PSI, volts,
   * GPH and gallons, tens of RPM), and the EGTs and CHTs are the six fields
   * of their runs, in order.
   */
  lemma {:induction false} DecodeFields(s: string)
    requires Decode(s).Some?
    ensures NumericFieldsOk(s)
    ensures Decode(s).value.mapInHg * 100.0 == FieldInt(s, 4).value as real
    ensures Decode(s).value.oilTempF == FieldInt(s, 5).value && Decode(s).value.oilPsi == FieldInt(s, 6).value
    ensures Decode(s).value.fuelPsi * 10.0 == FieldInt(s, 7).value as real
    ensures Decode(s).value.volts * 10.0 == FieldInt(s, 8).value as real
    ensures Decode(s).value.amps == FieldInt(s, 9).value && Decode(s).value.rpm == 10 * FieldInt(s, 10).value
    ensures Decode(s).value.fuelFlowGph * 10.0 == FieldInt(s, 11).value as real
    ensures Decode(s).value.fuelRemainGal * 10.0 == FieldInt(s, 12).value as real
    ensures Decode(s).value.fuelLevel1Gal * 10.0 == FieldInt(s, 13).value as real
    ensures Decode(s).value.fuelLevel2Gal * 10.0 == FieldInt(s, 14).value as real
    ensures |Decode(s).value.egtF| == 6 && forall j :: 0 <= j < 6 ==> FieldInt(s, 19 + j) == Some(Decode(s).value.egtF[j])
    ensures |Decode(s).value.chtF| == 6 && forall j :: 0 <= j < 6 ==> FieldInt(s, 25 + j) == Some(Decode(s).value.chtF[j])
    ensures Decode(s).value.contact1 == FieldInt(s, 31).value && Decode(s).value.contact2 == FieldInt(s, 32).value
  {
    DecodeSucceeds(s);
    FieldValuesAt(s);
    ReadingOfFields(FieldValues(s));
  }

  /** A line too short to reach the second contact is rejected: that field is empty. */
  lemma {:induction false} ShortLineRejected(s: string)
    requires |s| < 115
    ensures Decode(s) == None
  {
    var vals := FieldValues(s);
    FieldValuesAt(s);
    assert vals[32] == None by {
      assert Field(s, 32) == [];
      BlankRejected([], 10);
    }
    ReadingOfSucceeds(vals);
  }

  /** Lines that agree on every numeric field decode alike: the opaque fields are never read. */
  lemma {:induction false} OnlyNumericFieldsMatter(s: string, t: string)
    requires forall k :: 0 <= k < FieldCount && !IsOpaque(k) ==> Field(s, k) == Field(t, k)
    ensures Decode(s) == Decode(t)
  {
    FieldValuesAt(s);
    FieldValuesAt(t);
    ReadingOfNumeric(FieldValues(s), FieldValues(t));
  }

  /** Nothing after the second contact matters: the product id, a longer line's tail, or their absence. */
  lemma {:induction false} TrailingTextIgnored(s: string)
    requires |s| >= 115
    ensures Decode(s) == Decode(s[..115])
  {
    forall k | 0 <= k < FieldCount && !IsOpaque(k)
      ensures Field(s, k) == Field(s[..115], k)
    {
      OffsetMonotone(k + 1, FieldCount - 1);
      FieldSpan(s, k);
      FieldSpan(s[..115], k);
      assert s[..115][Offset(k)..Offset(k + 1)] == s[Offset(k)..Offset(k + 1)];
    }
    OnlyNumericFieldsMatter(s, s[..115]);
  }

  /** Lines that agree up to the second contact decode alike. */
  lemma {:induction false} SamePrefixDecodes(s: string, t: string)
    requires |s| >= 115 && |t| >= 115 && s[..115] == t[..115]
    ensures Decode(s) == Decode(t)
  {
    TrailingTextIgnored(s);
    TrailingTextIgnored(t);
  }

  // Writing a line

  /** Fields 0 to n - 1 written one after the other, each right-justified in its width. */
  function EncodeFields(vals: seq<int>, n: nat): (line: string)
    requires |vals| == FieldCount && n <= FieldCount
    ensures |line| == Offset(n)
  {
    if n == 0 then []
    else
      OffsetIsRunningSum(n - 1);
      EncodeFields(vals, n - 1) + FixedWidth(vals[n - 1], Width(n - 1))
  }

  /** A whole line in the instrument's format, without checksum and line end. */
  function Encode(vals: seq<int>): (line: string)
    requires |vals| == FieldCount
    ensures |line| == FrameLength
  {
    EncodeFields(vals, FieldCount)
  }

  /** A written line is made of digits and minus signs. */
  lemma {:induction false} EncodeFieldsNumerals(vals: seq<int>, n: nat)
    requires |vals| == FieldCount && n <= FieldCount
    ensures forall k :: 0 <= k < Offset(n) ==> IsNumeral(EncodeFields(vals, n)[k])
  {
    if n > 0 {
      OffsetIsRunningSum(n - 1);
      EncodeFieldsNumerals(vals, n - 1);
      FixedWidthNumerals(vals[n - 1], Width(n - 1));
      var shorter, text := EncodeFields(vals, n - 1), FixedWidth(vals[n - 1], Width(n - 1));
      var line := EncodeFields(vals, n);
      assert line == shorter + text;
      forall k | 0 <= k < Offset(n)
        ensures IsNumeral(line[k])
      {
        if k < |shorter| {
          assert line[k] == shorter[k];
        } else {
          assert line[k] == text[k - |shorter|];
        }
      }
    }
  }

  /** Writing more fields only appends: the first n fields stay where they were. */
  lemma {:induction false} EncodeFieldsPrefix(vals: seq<int>, n: nat, m: nat)
    requires |vals| == FieldCount && n <= m <= FieldCount
    ensures EncodeFields(vals, n) <= EncodeFields(vals, m)
    decreases m
  {
    if n < m {
      EncodeFieldsPrefix(vals, n, m - 1);
      assert EncodeFields(vals, m - 1) <= EncodeFields(vals, m);
    }
  }

  /** Field k of a line is the tail, from field k on, of any prefix of it that ends with field k. */
  lemma {:induction false} FieldOfPrefix(line: string, upTo: string, k: nat)
    requires k < FieldCount && upTo <= line && |upTo| == Offset(k + 1)
    ensures Field(line, k) == upTo[Offset(k)..]
  {
    OffsetIsRunningSum(k);
    FieldSpan(line, k);
    assert upTo == line[..Offset(k + 1)];
  }

  /** Field k of a written line is the text field k was written as. */
  lemma {:induction false} EncodedField(vals: seq<int>, k: nat)
    requires |vals| == FieldCount && k < FieldCount
    ensures Field(Encode(vals), k) == FixedWidth(vals[k], Width(k))
  {
    var before, text := EncodeFields(vals, k), FixedWidth(vals[k], Width(k));
    var upTo := EncodeFields(vals, k + 1);
    assert upTo == before + text;
    EncodeFieldsPrefix(vals, k + 1, FieldCount);
    FieldOfPrefix(Encode(vals), upTo, k);
    DropPrefix(before, text);
  }

  /** What follows a prefix of known length. */
  lemma {:induction false} DropPrefix(a: string, b: string)
    ensures (a + b)[|a|..] == b
  {
  }

  /**
   * A line written from values that fit their fields is decoded back into
   * those values: the decoder reads what the instrument writes.
   */
  lemma {:induction false} EncodeDecode(vals: seq<int>)
    requires |vals| == FieldCount
    requires forall k :: 0 <= k < FieldCount && !IsOpaque(k) ==> Fits(vals[k], Width(k))
    ensures Decode(Encode(vals)) == Some(Reading(vals[4], vals[5], vals[6], vals[7], vals[8], vals[9], vals[10],
      vals[11], vals[12], vals[13], vals[14], vals[19..25], vals[25..31], vals[31], vals[32]))
  {
    var line := Encode(vals);
    FieldValuesAt(line);
    forall k | 0 <= k < FieldCount && !IsOpaque(k)
      ensures FieldValues(line)[k] == Some(vals[k])
    {
      EncodedField(vals, k);
      FixedWidthRoundTrip(vals[k], Width(k));
    }
    ReadingOfValues(FieldValues(line), vals);
  }
}
