/**
 * The serial_d120 input: one call of readMessage takes one line of the
 * Dynon D120/D180 EMS stream, checks its checksum, decodes it and copies
 * the reading into the engine and fuel objects it registered, counting the
 * lines it had to throw away.
 *
 * The line arrives from outside: as bytes from the serial port, or as a
 * text line of a playback file.  Reading it, rewinding the playback file,
 * sleeping and logging are not part of this model.
 */
module SerialD120 {
  import opened Wrappers
  import opened PyText
  import opened PyInt
  import opened EmsChecksum
  import opened EmsDecoder
  import opened EmsDecoderFacts

  /** What one readline() gave: bytes from the port, or a text line from a playback file. */
  datatype Received = Serial(bytes: seq<Byte>) | Playback(text: string)

  /** What readMessage made of a line. */
  datatype Outcome =
    | Skipped                                   // the exit flag or skipReadInput was set
    | NoData                                    // readline() returned nothing
    | BadChecksum                               // _ems_checksum_ok refused the line
    | BadLine                                   // _parse_ems_line refused the text
    | Accepted(reading: EmsReading, line: string)

  /** str.encode("ascii", errors="ignore"): characters outside ASCII are dropped. */
  function AsciiEncode(text: string): (raw: seq<Byte>)
    ensures |raw| <= |text|
    ensures forall k :: 0 <= k < |raw| ==> raw[k] < 128
  {
    if text == [] then []
    else (if (text[0] as int) < 128 then [text[0] as int as Byte] else []) + AsciiEncode(text[1..])
  }

  /** bytes.decode("ascii", errors="ignore"): bytes of 128 and above are dropped. */
  function AsciiDecode(raw: seq<Byte>): (text: string)
    ensures |text| <= |raw|
    ensures forall k :: 0 <= k < |text| ==> (text[k] as int) < 128
  {
    if raw == [] then [] else (if raw[0] < 128 then [raw[0] as char] else []) + AsciiDecode(raw[1..])
  }

  predicate IsAscii(text: string) {
    forall k :: 0 <= k < |text| ==> (text[k] as int) < 128
  }

  /**
   * The bytes a received line is checked as: those from the port as they
   * came, and for a playback line its ASCII characters only.
   */
  function RawBytes(received: Received): (raw: seq<Byte>)
    ensures received.Serial? ==> raw == received.bytes
    ensures received.Playback? ==> raw == AsciiEncode(received.text)
    ensures received.Playback? ==> |raw| <= |received.text| && forall k :: 0 <= k < |raw| ==> raw[k] < 128
  {
    match received
    case Serial(bytes) => bytes
    case Playback(text) => AsciiEncode(text)
  }

  /** readline() returned an empty line: an empty text in playback, no bytes from the port. */
  predicate NothingRead(received: Received)
    ensures NothingRead(received) ==> RawBytes(received) == []
  {
    match received
    case Serial(bytes) => bytes == []
    case Playback(text) => text == []
  }

  /**
   * The text handed to the decoder: the ASCII part of the line, stripped.
   * It is ASCII, no longer than the line, and does not start or end with
   * whitespace.
   */
  function FrameText(raw: seq<Byte>): (text: string)
    ensures |text| <= |raw| && IsAscii(text)
    ensures text != [] ==> !IsSpace(text[0], StrSpaces) && !IsSpace(text[|text| - 1], StrSpaces)
  {
    var decoded := AsciiDecode(raw);
    StripChars(decoded, StrSpaces);
    Strip(decoded, StrSpaces)
  }

  /** What readMessage does with a line, given the exit flag and skipReadInput. */
  function Classify(errorFoundNeedToExit: bool, skipReadInput: bool, received: Received): (o: Outcome)
    ensures o.Skipped? <==> errorFoundNeedToExit || skipReadInput
  {
    if errorFoundNeedToExit || skipReadInput then Skipped
    else if NothingRead(received) then NoData
    else if !ChecksumOk(RawBytes(received)) then BadChecksum
    else
      var s := FrameText(RawBytes(received));
      match Decode(s)
      case None => BadLine
      case Some(r) => Accepted(r, s)
  }

  /** A list after `for i, v in enumerate(vals): if i < len(a): a[i] = v`. */
  function Overlaid(a: seq<int>, vals: seq<int>): (r: seq<int>)
    ensures |r| == |a|
    ensures forall i :: 0 <= i < |a| ==> r[i] == if i < |vals| then vals[i] else a[i]
  {
    if |vals| >= |a| then vals[..|a|] else vals + a[|vals|..]
  }

  /** FuelLevels after padding to two slots with 0.0 and setting both tanks. */
  function UpdatedLevels(levels: seq<real>, tank1: real, tank2: real): (r: seq<real>)
    ensures |r| == if |levels| < 2 then 2 else |levels|
    ensures r[0] == tank1 && r[1] == tank2
    ensures forall i :: 2 <= i < |r| ==> r[i] == levels[i]
  {
    var padded := if |levels| < 2 then levels + seq(2 - |levels|, _ => 0.0) else levels;
    padded[0 := tank1][1 := tank2]
  }

  function Max(a: int, b: int): int {
    if a >= b then a else b
  }

  /** Everything readMessage writes into the engine object, as a value. */
  datatype EngineState = EngineState(
    rpm: int, manPress: real, oilTemp: int, oilPress: int, fuelPress: real, fuelFlow: real,
    volts: real, amps: int, egt: seq<int>, cht: seq<int>, numberOfCylinders: int,
    msgLast: string, msgCount: nat)

  /** Everything readMessage writes into the fuel object, as a value. */
  datatype FuelState = FuelState(fuelLevels: seq<real>, fuelTotal: real, msgCount: nat)

  /**
   * The engine object after a line with reading r and text s was mapped
   * into it: the scalars are replaced, the EGT and CHT lists overlaid, the
   * cylinder count set when there is any EGT or CHT, the line kept and
   * counted.
   */
  function EngineAfter(e: EngineState, r: EmsReading, s: string): (after: EngineState)
    ensures |after.egt| == |e.egt| && |after.cht| == |e.cht|
    ensures after.msgLast == s && after.msgCount == e.msgCount + 1
    ensures after.numberOfCylinders == if |r.egtF| == 0 && |r.chtF| == 0 then e.numberOfCylinders
      else if |r.egtF| >= |r.chtF| then |r.egtF| else |r.chtF|
  {
    e.(rpm := r.rpm, manPress := r.mapInHg, oilTemp := r.oilTempF, oilPress := r.oilPsi,
       fuelPress := r.fuelPsi, fuelFlow := r.fuelFlowGph, volts := r.volts, amps := r.amps,
       egt := Overlaid(e.egt, r.egtF), cht := Overlaid(e.cht, r.chtF),
       numberOfCylinders := if |r.egtF| > 0 || |r.chtF| > 0 then Max(|r.egtF|, |r.chtF|) else e.numberOfCylinders,
       msgLast := s, msgCount := e.msgCount + 1)
  }

  /** The fuel object after a reading r was mapped into it. */
  function FuelAfter(f: FuelState, r: EmsReading): (after: FuelState)
    ensures |after.fuelLevels| == if |f.fuelLevels| < 2 then 2 else |f.fuelLevels|
    ensures after.fuelLevels[0] == r.fuelLevel1Gal && after.fuelLevels[1] == r.fuelLevel2Gal
    ensures after.fuelTotal == r.fuelRemainGal && after.msgCount == f.msgCount + 1
  {
    FuelState(UpdatedLevels(f.fuelLevels, r.fuelLevel1Gal, r.fuelLevel2Gal), r.fuelRemainGal, f.msgCount + 1)
  }

  /** The engine object the input registers; the EGT and CHT lists are arrays updated in place. */
  class EngineData {
    var rpm: int
    var manPress: real
    var oilTemp: int
    var oilPress: int
    var fuelPress: real
    var fuelFlow: real
    var volts: real
    var amps: int
    const egt: array<int>
    const cht: array<int>
    var numberOfCylinders: int
    var msgLast: string
    var msgCount: nat

    constructor (egtSlots: nat, chtSlots: nat)
      ensures fresh(egt) && fresh(cht) && egt != cht && egt.Length == egtSlots && cht.Length == chtSlots
      ensures msgCount == 0 && msgLast == []
    {
      rpm, manPress, oilTemp, oilPress := 0, 0.0, 0, 0;
      fuelPress, fuelFlow, volts, amps := 0.0, 0.0, 0.0, 0;
      egt := new int[egtSlots](_ => 0);
      cht := new int[chtSlots](_ => 0);
      numberOfCylinders := 0;
      msgLast := [];
      msgCount := 0;
    }

    function State(): EngineState
      reads this, egt, cht
    {
      EngineState(rpm, manPress, oilTemp, oilPress, fuelPress, fuelFlow, volts, amps,
        egt[..], cht[..], numberOfCylinders, msgLast, msgCount)
    }
  }

  /** The fuel object the input registers; FuelLevels is a list that may grow. */
  class FuelData {
    var fuelLevels: seq<real>
    var fuelTotal: real
    var msgCount: nat

    constructor (levels: seq<real>)
      ensures fuelLevels == levels && msgCount == 0
    {
      fuelLevels := levels;
      fuelTotal := 0.0;
      msgCount := 0;
    }

    function State(): FuelState
      reads this
    {
      FuelState(fuelLevels, fuelTotal, msgCount)
    }
  }

  /** Copies vals over the front of a, as far as a reaches; the rest of a stays. */
  method Overlay(a: array<int>, vals: seq<int>)
    modifies a
    ensures a[..] == Overlaid(old(a[..]), vals)
  {
    for i := 0 to |vals|
      invariant forall j :: 0 <= j < a.Length ==> a[j] == if j < i && j < |vals| then vals[j] else old(a[j])
    {
      if i < a.Length {
        a[i] := vals[i];
      }
    }
  }

  class SerialD120 {
    var msgBad: nat
    var msgUnknown: nat
    var skipReadInput: bool
    const engineData: EngineData
    const fuelData: FuelData

    /** The EGT and CHT lists are two different lists. */
    predicate Valid()
      reads this, engineData
    {
      engineData.egt != engineData.cht
    }

    /** initInput: both counters at zero, a fresh engine object and a fresh fuel object. */
    constructor (skip: bool, egtSlots: nat, chtSlots: nat, levels: seq<real>)
      ensures Valid() && fresh(engineData) && fresh(fuelData)
      ensures msgBad == 0 && msgUnknown == 0 && skipReadInput == skip
      ensures engineData.egt.Length == egtSlots && engineData.cht.Length == chtSlots
      ensures fuelData.fuelLevels == levels
    {
      msgUnknown := 0;
      msgBad := 0;
      skipReadInput := skip;
      engineData := new EngineData(egtSlots, chtSlots);
      fuelData := new FuelData(levels);
    }

    /** The engine half of the mapping: scalars, EGTs and CHTs in place, cylinder count, last line. */
    method RecordEngine(r: EmsReading, s: string)
      requires Valid()
      modifies engineData, engineData.egt, engineData.cht
      ensures engineData.State() == EngineAfter(old(engineData.State()), r, s)
    {
      var eng := engineData;
      ghost var before := eng.State();
      eng.rpm := r.rpm;
      eng.manPress := r.mapInHg;
      eng.oilTemp := r.oilTempF;
      eng.oilPress := r.oilPsi;
      eng.fuelPress := r.fuelPsi;
      eng.fuelFlow := r.fuelFlowGph;
      eng.volts := r.volts;
      eng.amps := r.amps;
      Overlay(eng.egt, r.egtF);
      Overlay(eng.cht, r.chtF);
      assert eng.egt[..] == Overlaid(before.egt, r.egtF);
      if |r.egtF| > 0 || |r.chtF| > 0 {
        eng.numberOfCylinders := Max(|r.egtF|, |r.chtF|);
      }
      eng.msgLast := s;
      eng.msgCount := eng.msgCount + 1;
    }

    /** The fuel half: FuelLevels padded to two slots, both tanks and the total set. */
    method RecordFuel(r: EmsReading)
      modifies fuelData
      ensures fuelData.State() == FuelAfter(old(fuelData.State()), r)
    {
      var fuel := fuelData;
      while |fuel.fuelLevels| < 2
        invariant |old(fuel.fuelLevels)| <= |fuel.fuelLevels|
        invariant |old(fuel.fuelLevels)| < 2 ==> |fuel.fuelLevels| <= 2
        invariant fuel.fuelLevels[..|old(fuel.fuelLevels)|] == old(fuel.fuelLevels)
        invariant forall i :: |old(fuel.fuelLevels)| <= i < |fuel.fuelLevels| ==> fuel.fuelLevels[i] == 0.0
        invariant |old(fuel.fuelLevels)| >= 2 ==> fuel.fuelLevels == old(fuel.fuelLevels)
        invariant fuel.msgCount == old(fuel.msgCount)
        decreases 2 - |fuel.fuelLevels|
      {
        fuel.fuelLevels := fuel.fuelLevels + [0.0];
      }
      ghost var levels := old(fuel.fuelLevels);
      assert fuel.fuelLevels == if |levels| < 2 then levels + seq(2 - |levels|, _ => 0.0) else levels;
      fuel.fuelLevels := fuel.fuelLevels[0 := r.fuelLevel1Gal];
      fuel.fuelLevels := fuel.fuelLevels[1 := r.fuelLevel2Gal];
      fuel.fuelTotal := r.fuelRemainGal;
      fuel.msgCount := fuel.msgCount + 1;
    }

    /**
     * readMessage with the line already read: a refused line is counted in
     * msgBad and changes nothing else; an accepted one is copied into the
     * engine and fuel objects.
     */
    method ReadMessage(errorFoundNeedToExit: bool, received: Received) returns (outcome: Outcome)
      requires Valid()
      modifies this, engineData, engineData.egt, engineData.cht, fuelData
      ensures Valid()
      ensures outcome == Classify(errorFoundNeedToExit, old(skipReadInput), received)
      ensures skipReadInput == old(skipReadInput) && msgUnknown == old(msgUnknown)
      ensures msgBad == old(msgBad) + if outcome.BadChecksum? || outcome.BadLine? then 1 else 0
      ensures engineData.State() ==
        if outcome.Accepted? then EngineAfter(old(engineData.State()), outcome.reading, outcome.line)
        else old(engineData.State())
      ensures fuelData.State() ==
        if outcome.Accepted? then FuelAfter(old(fuelData.State()), outcome.reading) else old(fuelData.State())
    {
      outcome := ClassifyLine(errorFoundNeedToExit, skipReadInput, received);
      if outcome.BadChecksum? || outcome.BadLine? {
        msgBad := msgBad + 1;
      } else if outcome.Accepted? {
        RecordEngine(outcome.reading, outcome.line);
        RecordFuel(outcome.reading);
      }
    }
  }

  /**
   * The checks readMessage makes on a line, in its order: the exit flag and
   * skipReadInput, an empty read, the checksum, then the parse of the
   * stripped ASCII text.
   */
  method ClassifyLine(errorFoundNeedToExit: bool, skipReadInput: bool, received: Received)
    returns (outcome: Outcome)
    ensures outcome == Classify(errorFoundNeedToExit, skipReadInput, received)
  {
    if errorFoundNeedToExit || skipReadInput {
      return Skipped;
    }
    if NothingRead(received) {
      return NoData;
    }
    var raw := RawBytes(received);
    if !ChecksumOk(raw) {
      return BadChecksum;
    }
    var s := FrameText(raw);
    var parsed := ParseEmsLine(s, ToInt);
    assert parsed == Decode(s);
    if parsed.None? {
      return BadLine;
    }
    outcome := Accepted(parsed.value, s);
  }

  // What readMessage makes of the lines it can receive

  /** ASCII text survives the encode and the decode unchanged. */
  lemma {:induction false} AsciiRoundTrip(text: string)
    requires IsAscii(text)
    ensures |AsciiEncode(text)| == |text| && AsciiDecode(AsciiEncode(text)) == text
  {
    if text != [] {
      AsciiRoundTrip(text[1..]);
      var head := [text[0] as int as Byte];
      assert AsciiEncode(text) == head + AsciiEncode(text[1..]);
      AsciiDecodeAppend(head, AsciiEncode(text[1..]));
      assert AsciiDecode(head) == [text[0]] by {
        assert head[1..] == [];
      }
    }
  }

  /** Decoding bytes piece by piece gives the same text as decoding them at once. */
  lemma {:induction false} AsciiDecodeAppend(a: seq<Byte>, b: seq<Byte>)
    ensures AsciiDecode(a + b) == AsciiDecode(a) + AsciiDecode(b)
    decreases |a|
  {
    if a == [] {
      assert a + b == b;
    } else {
      assert (a + b)[1..] == a[1..] + b;
      AsciiDecodeAppend(a[1..], b);
    }
  }

  /** One byte decodes to its character when it is ASCII, and to nothing otherwise. */
  lemma {:induction false} AsciiDecodeByte(b: Byte)
    ensures AsciiDecode([b]) == if b < 128 then [b as char] else []
  {
    assert [b][1..] == [];
  }

  /** One character encodes to its byte when it is ASCII, and to nothing otherwise. */
  lemma {:induction false} AsciiEncodeChar(c: char)
    ensures AsciiEncode([c]) == if (c as int) < 128 then [c as int as Byte] else []
  {
    assert [c][1..] == [];
  }

  /**
   * Encoding a text piece by piece equals encoding it at once: with
   * AsciiEncodeChar, every ASCII character is kept, in order, and every
   * other one dropped.
   */
  lemma {:induction false} AsciiEncodeAppend(s: string, t: string)
    ensures AsciiEncode(s + t) == AsciiEncode(s) + AsciiEncode(t)
    decreases |s|
  {
    if s == [] {
      assert s + t == t;
    } else {
      assert (s + t)[1..] == s[1..] + t;
      AsciiEncodeAppend(s[1..], t);
    }
  }

  /** ASCII bytes decode one character each. */
  lemma {:induction false} AsciiDecodeKeeps(raw: seq<Byte>)
    requires forall k :: 0 <= k < |raw| ==> raw[k] < 128
    ensures |AsciiDecode(raw)| == |raw| && forall k :: 0 <= k < |raw| ==> AsciiDecode(raw)[k] == raw[k] as char
  {
    if raw != [] {
      AsciiDecodeKeeps(raw[1..]);
      assert AsciiDecode(raw) == [raw[0] as char] + AsciiDecode(raw[1..]);
    }
  }

  /** A playback line of non-ASCII characters only encodes to no bytes at all. */
  lemma {:induction false} ForeignTextDropped(text: string)
    requires forall k :: 0 <= k < |text| ==> text[k] as int >= 128
    ensures AsciiEncode(text) == []
  {
    if text != [] {
      ForeignTextDropped(text[1..]);
    }
  }

  /**
   * The empty-line test comes before the ASCII encoding, so a playback line
   * of non-ASCII characters is counted as a bad checksum, not skipped.
   */
  lemma {:induction false} ForeignPlaybackLineCounted(text: string)
    requires text != [] && forall k :: 0 <= k < |text| ==> text[k] as int >= 128
    ensures Classify(false, false, Playback(text)) == BadChecksum
  {
    ForeignTextDropped(text);
  }

  /** An ASCII playback line is judged like the same bytes from the port. */
  lemma {:induction false} PlaybackAsSerial(errorFoundNeedToExit: bool, skipReadInput: bool, text: string)
    requires IsAscii(text)
    ensures Classify(errorFoundNeedToExit, skipReadInput, Playback(text))
         == Classify(errorFoundNeedToExit, skipReadInput, Serial(AsciiEncode(text)))
  {
    AsciiRoundTrip(text);
  }

  /** A line whose payload was changed in one byte after sealing is counted as a bad checksum. */
  lemma {:induction false} CorruptedLineCounted(p: seq<Byte>, k: nat, x: Byte)
    requires k < |p| && x != p[k]
    ensures Classify(false, false, Serial(Seal(p)[k := x])) == BadChecksum
  {
    CorruptionDetected(p, k, x);
  }

  /** A sealed payload decodes as the payload's text, the two checksum characters, CR and LF. */
  lemma {:induction false} SealedAscii(p: seq<Byte>)
    ensures AsciiDecode(Seal(p)) == AsciiDecode(p) +
      [HexDigit(ChecksumFor(p) / 16) as char, HexDigit(ChecksumFor(p) % 16) as char, '\r', '\n']
  {
    var c := ChecksumFor(p);
    var tail: seq<Byte> := [HexDigit(c / 16), HexDigit(c % 16), CR, LF];
    assert Seal(p) == p + tail;
    AsciiDecodeAppend(p, tail);
    AsciiDecodeFour(tail[0], tail[1], CR, LF);
  }

  /** Four ASCII bytes decode to their four characters. */
  lemma {:induction false} AsciiDecodeFour(a: Byte, b: Byte, c: Byte, d: Byte)
    requires a < 128 && b < 128 && c < 128 && d < 128
    ensures AsciiDecode([a, b, c, d]) == [a as char, b as char, c as char, d as char]
  {
    AsciiDecodeKeeps([a, b, c, d]);
  }

  /**
   * A sealed ASCII text whose first character is not whitespace passes the
   * check, and the decoder is handed that text followed by the two
   * checksum characters.
   */
  lemma {:induction false} SealedFrameText(text: string)
    requires IsAscii(text) && |text| >= 2 && !IsSpace(text[0], StrSpaces)
    ensures ChecksumOk(Seal(AsciiEncode(text)))
    ensures |FrameText(Seal(AsciiEncode(text)))| == |text| + 2
    ensures FrameText(Seal(AsciiEncode(text)))[..|text|] == text
  {
    var p := AsciiEncode(text);
    AsciiRoundTrip(text);
    SealAccepted(p);
    SealedAscii(p);
    var c := ChecksumFor(p);
    var body := text + [HexDigit(c / 16) as char, HexDigit(c % 16) as char];
    assert AsciiDecode(Seal(p)) == body + ['\r', '\n'];
    StripTrailing(body, ['\r', '\n'], StrSpaces);
    assert body[..|text|] == text;
  }

  /** A line from the port that passes the check and decodes is accepted with that reading. */
  lemma {:induction false} CheckedLineAccepted(raw: seq<Byte>)
    requires ChecksumOk(raw) && Decode(FrameText(raw)).Some?
    ensures Classify(false, false, Serial(raw)) == Accepted(Decode(FrameText(raw)).value, FrameText(raw))
  {
  }

  /** A written line is ASCII and starts with a digit or a minus sign. */
  lemma {:induction false} EncodedText(vals: seq<int>)
    requires |vals| == FieldCount
    ensures IsAscii(Encode(vals)) && !IsSpace(Encode(vals)[0], StrSpaces)
  {
    EncodeFieldsNumerals(vals, FieldCount);
    assert IsNumeral(Encode(vals)[0]);
  }

  /** A written line, sealed, passes the check, and the decoder reads it as the line itself. */
  lemma {:induction false} SealedEncodedLine(vals: seq<int>)
    requires |vals| == FieldCount
    ensures ChecksumOk(Seal(AsciiEncode(Encode(vals))))
    ensures Decode(FrameText(Seal(AsciiEncode(Encode(vals))))) == Decode(Encode(vals))
  {
    var text := Encode(vals);
    EncodedText(vals);
    SealedFrameText(text);
    var s := FrameText(Seal(AsciiEncode(text)));
    assert s[..115] == text[..115] by {
      assert s[..115] == s[..|text|][..115];
    }
    SamePrefixDecodes(s, text);
  }

  /**
   * The whole path: a line written in the instrument's format from values
   * that fit their fields, sealed with its checksum and sent over the port,
   * is accepted with exactly those values.
   */
  lemma {:induction false} SealedFrameAccepted(vals: seq<int>)
    requires |vals| == FieldCount
    requires forall k :: 0 <= k < FieldCount && !IsOpaque(k) ==> Fits(vals[k], Width(k))
    ensures Classify(false, false, Serial(Seal(AsciiEncode(Encode(vals))))) ==
      Accepted(Reading(vals[4], vals[5], vals[6], vals[7], vals[8], vals[9], vals[10],
        vals[11], vals[12], vals[13], vals[14], vals[19..25], vals[25..31], vals[31], vals[32]),
        FrameText(Seal(AsciiEncode(Encode(vals)))))
  {
    SealedEncodedLine(vals);
    EncodeDecode(vals);
    CheckedLineAccepted(Seal(AsciiEncode(Encode(vals))));
  }

  /**
   * When readMessage gives up on a line: nothing read while no flag was set;
   * a bad checksum, a line that fails the check; a bad line, one that passes
   * the check but whose stripped text the decoder refuses.
   */
  lemma {:induction false} ClassifyCases(errorFoundNeedToExit: bool, skipReadInput: bool, received: Received)
    ensures var o := Classify(errorFoundNeedToExit, skipReadInput, received);
      var raw := RawBytes(received);
      var read := !errorFoundNeedToExit && !skipReadInput && !NothingRead(received);
      && (o.NoData? <==> !errorFoundNeedToExit && !skipReadInput && NothingRead(received))
      && (o.BadChecksum? <==> read && !ChecksumOk(raw))
      && (o.BadLine? <==> read && ChecksumOk(raw) && Decode(FrameText(raw)).None?)
  {
  }

  /** An accepted line is one that passed the check and that the decoder read. */
  lemma {:induction false} AcceptedDecoded(errorFoundNeedToExit: bool, skipReadInput: bool, received: Received)
    requires Classify(errorFoundNeedToExit, skipReadInput, received).Accepted?
    ensures !errorFoundNeedToExit && !skipReadInput && ChecksumOk(RawBytes(received))
    ensures var o := Classify(errorFoundNeedToExit, skipReadInput, received);
      o.line == FrameText(RawBytes(received)) && Decode(o.line) == Some(o.reading)
  {
  }

  /** What a decoded line leaves in the engine object besides temperatures: six cylinders, the RPM of field 10 in tens, the line. */
  lemma {:induction false} DecodedEngine(s: string, before: EngineState)
    requires Decode(s).Some?
    ensures var after := EngineAfter(before, Decode(s).value, s);
      && after.numberOfCylinders == 6
      && after.msgLast == s && after.msgCount == before.msgCount + 1
      && FieldInt(s, 10).Some? && after.rpm == 10 * FieldInt(s, 10).value
  {
    DecodeFields(s);
  }

  /**
   * The EGT and CHT slots after a decoded line: each slot within reach of
   * the six readings holds the integer of its field, slots beyond keep
   * their value.
   */
  lemma {:induction false} DecodedTemperatures(s: string, before: EngineState)
    requires Decode(s).Some?
    ensures var after := EngineAfter(before, Decode(s).value, s);
      && |after.egt| == |before.egt| && |after.cht| == |before.cht|
      && (forall i :: 0 <= i < |before.egt| && i < 6 ==> FieldInt(s, 19 + i) == Some(after.egt[i]))
      && (forall i :: 6 <= i < |before.egt| ==> after.egt[i] == before.egt[i])
      && (forall i :: 0 <= i < |before.cht| && i < 6 ==> FieldInt(s, 25 + i) == Some(after.cht[i]))
      && (forall i :: 6 <= i < |before.cht| ==> after.cht[i] == before.cht[i])
  {
    var r := Decode(s).value;
    DecodeFields(s);
    var after := EngineAfter(before, r, s);
    forall i | 0 <= i < |before.egt| && i < 6
      ensures FieldInt(s, 19 + i) == Some(after.egt[i])
    {
      assert after.egt[i] == r.egtF[i];
    }
    forall i | 0 <= i < |before.cht| && i < 6
      ensures FieldInt(s, 25 + i) == Some(after.cht[i])
    {
      assert after.cht[i] == r.chtF[i];
    }
  }

  /** What a decoded line leaves in the fuel object: both tanks and the total, in tenths of a gallon. */
  lemma {:induction false} DecodedFuel(s: string, before: FuelState)
    requires Decode(s).Some?
    ensures var after := FuelAfter(before, Decode(s).value);
      && |after.fuelLevels| >= 2 && after.msgCount == before.msgCount + 1
      && FieldInt(s, 13).Some? && after.fuelLevels[0] * 10.0 == FieldInt(s, 13).value as real
      && FieldInt(s, 14).Some? && after.fuelLevels[1] * 10.0 == FieldInt(s, 14).value as real
      && FieldInt(s, 12).Some? && after.fuelTotal * 10.0 == FieldInt(s, 12).value as real
      && (forall i :: 2 <= i < |before.fuelLevels| ==> after.fuelLevels[i] == before.fuelLevels[i])
  {
    DecodeFields(s);
  }
}
