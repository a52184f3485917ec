# Dynon D120/D180 EMS serial input, modelled in Dafny

This project models the `serial_d120` input of the flight display
(`lib/inputs/serial_d120.py`). The input reads one line of the Dynon
D120/D180 engine-monitor ASCII stream at a time and checks its
self-zeroing checksum (`_ems_checksum_ok`). It then decodes the
fixed-width fields (`_parse_ems_line`) and copies the reading into the
engine and fuel objects it registered (`readMessage`), counting every
line it had to throw away in `msg_bad`.

The project is made of these modules:

- `PyText` (`py_text.dfy`): the two kinds of ASCII whitespace Python
  uses here, and stripping with each. `str.strip()` removes what
  `str.isspace()` calls whitespace: TAB, LF, VT, FF, CR, the separators
  0x1C-0x1F and SPACE. `int()` skips only TAB, LF, VT, FF, CR and SPACE
  around a number on an ASCII text.
- `PyInt` (`py_int.dfy`): Python's `int(text, base)`. That means
  skipping that narrower whitespace, an optional sign, the radix prefix
  of base 2, 8 and 16, and single underscores between digits. It also has the
  fixed-width decimal form the instrument writes its fields in, with the
  proof that `int()` reads that form back as the value it was written
  from.
- `EmsChecksum` (`checksum.dfy`): `_ems_checksum_ok` as the predicate
  `ChecksumOk`. `Seal` builds a correctly checksummed line, so that
  acceptance, uniqueness and corruption detection can be stated.
- `EmsDecoder` (`decoder.dfy`):
  - The 34-field layout: `Width`, `Offset`, `Field`.
  - The decoder as a function, `Decode`.
  - `_parse_ems_line` as the imperative method `ParseEmsLine`. It keeps
    the index `i` that `take` moves along the line, and converts fields
    one by one, stopping at the first refusal.
- `EmsDecoderFacts` (`decoder_facts.dfy`): which lines decode and what
  each member of a reading is made of. Also an encoder for the line
  format, with the round trip `Decode(Encode(vals))`.
- `SerialD120` (`serial_d120.dfy`):
  - The `SerialD120` class with its counters.
  - The `EngineData` class, whose EGT and CHT lists are arrays updated in
    place, and the `FuelData` class, whose `FuelLevels` list grows.
  - `ReadMessage`, proved against the specification function `Classify`
    and the state functions `EngineAfter` and `FuelAfter`.
  - The end-to-end lemmas: a sealed, well-formed line sent over the port
    is accepted with exactly the values it was written from, and a
    corrupted one is counted as bad.

The checksum pair is meant to be two hexadecimal characters, but the
code reads it with `int(text, 16)`, and the model follows the code. So a
pair that is not two hexadecimal digits is not always rejected:

- `" 5"` and `"+5"` are read as 5, and so is a TAB, LF, VT, FF or CR
  in place of that leading space.
- `"5 "` is read as 5, and so is a TAB, VT or FF in place of that
  trailing space. A trailing CR or LF cannot reach the pair: `rstrip`
  removes it first, and the pair is then the two bytes before it.
- A separator byte 0x1C-0x1F on either side of the digit is refused
  (`PyInt.SeparatorNotSkipped`).
- `"-5"` is read as -5.
- A line carrying such a pair passes when the sum works out
  (`EmsChecksum.NegativePairAccepted`).

`_parse_ems_line` converts its numeric fields with `int()`. In the
model, `ParseEmsLine` takes that conversion as the parameter `toInt` and
is proved for every conversion. The checks `readMessage` makes on a line
are the method `ClassifyLine`, which passes `ToInt` (`int(text)` in base
10, the conversion `Decode` is defined with). `ReadMessage` runs it and
then updates the counters and the engine and fuel objects.

## Model

| member | source | states |
|---|---|---|
| PyText.LStrip | lib/inputs/serial_d120.py:96 | the result is a suffix of the text that does not start with whitespace, and every character removed was whitespace |
| PyText.RStrip | lib/inputs/serial_d120.py:96 | the result is a prefix of the text that does not end with whitespace, and every character removed was whitespace |
| PyText.Strip | lib/inputs/serial_d120.py:96 | `strip()` never lengthens a text, and a non-empty result neither starts nor ends with whitespace; which characters it keeps is stated by `PyText.StripIsMiddle` |
| PyText.StripIsMiddle | lib/inputs/serial_d120.py:96 | `strip()` keeps the characters of the text, in order, from the first one that is not whitespace, and every character it drops, before or after them, is whitespace |
| PyText.SeparatorStripped | lib/inputs/serial_d120.py:96 | for any text, a separator byte 0x1C-0x1F in front of it is removed by `str.strip()`, which then strips the rest as it would alone; the stripping of `int()` keeps the separator as the first character |
| PyText.StripIdempotent | lib/inputs/serial_d120.py:96 | `strip()` applied to its own result changes nothing |
| PyText.StripTrailing | lib/inputs/serial_d120.py:96 | stripping a text whose ends are not whitespace, followed by whitespace such as CR LF, gives back exactly that text |
| PyInt.Parse | lib/inputs/serial_d120.py:196-235 | `int()` accepts no text that is blank once TAB, LF, VT, FF, CR and SPACE are skipped, and gives a negative value only for a text whose first other character is `-` |
| PyInt.HexPair | lib/inputs/serial_d120.py:177-178 | for every two characters, `int(text, 16)` is two hex digits, a sign or TAB/LF/VT/FF/CR/SPACE with one digit, or one digit followed by one of those; anything else raises |
| PyInt.SeparatorNotSkipped | lib/inputs/serial_d120.py:178 | a hex digit with a separator byte 0x1C-0x1F before or after it makes `int(text, 16)` raise |
| PyInt.ParsedAlphabet | lib/inputs/serial_d120.py:196 | every character of a text `int()` accepts is whitespace, a sign, an underscore, a radix letter or a digit of the base |
| PyInt.ForeignCharRejected | lib/inputs/serial_d120.py:196 | a text holding a character outside that alphabet makes `int()` raise |
| PyInt.BlankRejected | lib/inputs/serial_d120.py:196 | an empty or all-whitespace field makes `int()` raise |
| PyInt.FixedWidthRoundTrip | lib/inputs/serial_d120.py:196-236 | a value written right-justified and zero-padded in w characters (with `-` for negatives) is read back by `int()` as exactly that value, whenever it fits |
| PyInt.SignedFieldExample | lib/inputs/serial_d120.py:200-202 | a signed field such as `-05` reads as -5 |
| PyInt.UnderscoreExample | lib/inputs/serial_d120.py:196 | `int("1_0")` is 10 |
| PyInt.RejectedExamples | lib/inputs/serial_d120.py:196 | `int("2.5")`, `int("")` and `int("\x1f12")` raise |
| EmsChecksum.RStripLineEnd | lib/inputs/serial_d120.py:174 | the body is a prefix of the line, does not end in CR or LF, and everything removed was CR or LF |
| EmsChecksum.Sum | lib/inputs/serial_d120.py:180 | the sum of a payload is at most 255 per byte |
| EmsChecksum.PairValue | lib/inputs/serial_d120.py:177-178 | a pair that reads is ASCII, and its value lies between -15 (`-F`) and 255 (`FF`) |
| EmsChecksum.PairValueIsInt | lib/inputs/serial_d120.py:177-178 | the checksum pair's value is `int(pair, 16)` of its two ASCII characters |
| EmsChecksum.LineEndsIgnored | lib/inputs/serial_d120.py:174-181 | any number of trailing CR and LF bytes change neither the body nor the verdict |
| EmsChecksum.ChecksumFor | lib/inputs/serial_d120.py:171-172 | the byte it gives zeroes the payload sum modulo 256 |
| EmsChecksum.ChecksumUnique | lib/inputs/serial_d120.py:179-181 | exactly one byte value zeroes a payload sum modulo 256 |
| EmsChecksum.ChecksumOk | lib/inputs/serial_d120.py:170-183 | a line passes only when its body, CR and LF stripped, has at least four bytes and ends in two ASCII bytes |
| EmsChecksum.ChecksumCases | lib/inputs/serial_d120.py:174-183 | for a body of payload p and pair hi lo, the line passes exactly when p has two bytes or more, the pair is ASCII that `int(text, 16)` reads, and `(sum(p) + value) & 0xFF == 0` |
| EmsChecksum.PairRefused | lib/inputs/serial_d120.py:177-183 | a pair that is not ASCII or that `int(text, 16)` refuses fails the line, whatever the payload |
| EmsChecksum.SeparatorPairRefused | lib/inputs/serial_d120.py:174-183 | a line ending in a separator byte 0x1C-0x1F, one hex digit, CR and LF fails, whatever the payload |
| EmsChecksum.Verdict | lib/inputs/serial_d120.py:174-181 | for a body of payload p and a pair read as chk, the line passes exactly when `(sum(p) + chk) & 0xFF == 0` |
| EmsChecksum.HexPairCheck | lib/inputs/serial_d120.py:175-181 | where the pair is two hex digits, the line passes exactly when their value is the checksum of the payload |
| EmsChecksum.SealAccepted | lib/inputs/serial_d120.py:170-181 | a payload sealed with its checksum and CR LF passes exactly when the body reaches four bytes |
| EmsChecksum.MisSealedRejected | lib/inputs/serial_d120.py:175-181 | a line sealed with any upper-case hex pair, as `Seal` writes it, other than the payload's checksum fails |
| EmsChecksum.CorruptionDetected | lib/inputs/serial_d120.py:170-181 | changing any one payload byte of a sealed line makes it fail |
| EmsChecksum.NegativePairAccepted | lib/inputs/serial_d120.py:177-181 | a pair of `-` and one hex digit is accepted by `int()`, and the line passes exactly when the payload sum minus that digit is a multiple of 256 |
| EmsDecoder.Width | lib/inputs/serial_d120.py:196-235 | every field is one to eight characters wide |
| EmsDecoder.OffsetBounds | lib/inputs/serial_d120.py:188-236 | every field starts within the 117 characters of a complete line, and only the end of the last field reaches 117 |
| EmsDecoder.OffsetIsRunningSum | lib/inputs/serial_d120.py:188-192 | field 0 starts the line and each field starts where the previous one ended (take moves `i` on by n) |
| EmsDecoder.OffsetMonotone | lib/inputs/serial_d120.py:188-192 | later fields never start earlier |
| EmsDecoder.Slice | lib/inputs/serial_d120.py:190 | `s[i:i+n]` is clipped to the line: empty past its end, shorter at its end |
| EmsDecoder.SliceChars | lib/inputs/serial_d120.py:190 | the characters of a slice are those of the line from i on |
| EmsDecoder.FieldLength | lib/inputs/serial_d120.py:188-192 | field k has its full width when the line reaches the field's end, is empty when the line ends before the field starts, and is never longer than its width |
| EmsDecoder.ToInt | lib/inputs/serial_d120.py:196 | a text `int()` accepts in base 10 is not empty and holds only whitespace, signs, underscores and decimal digits |
| EmsDecoder.FieldInt | lib/inputs/serial_d120.py:196-235 | a field that converts starts inside the line: a field past the line's end is empty and raises |
| EmsDecoder.FieldSpan | lib/inputs/serial_d120.py:188-192 | on a line long enough, field k is exactly its span of the line |
| EmsDecoder.AllSome | lib/inputs/serial_d120.py:229-231 | the list of values exists exactly when every conversion succeeded, and then holds those values in order |
| EmsDecoder.RunIsAllSome | lib/inputs/serial_d120.py:229-231 | converting a run field by field, stopping at the first refusal, gives the same result as the list comprehension |
| EmsDecoder.RunStops | lib/inputs/serial_d120.py:229-231 | one refused field makes the whole run fail, whatever follows it |
| EmsDecoder.Reading | lib/inputs/serial_d120.py:239-265 | MAP is hundredths of inHg; fuel pressure, volts, fuel flow, remaining fuel and both tank levels are tenths; RPM is tens; the rest are passed through |
| EmsDecoder.ReadingOf | lib/inputs/serial_d120.py:194-267 | a reading, when made, has six EGTs and six CHTs |
| EmsDecoder.ReadingOfSucceeds | lib/inputs/serial_d120.py:194-267 | a reading is made exactly when every numeric field converts; the opaque fields never matter |
| EmsDecoder.Decode | lib/inputs/serial_d120.py:185-267 | a decoded reading has six EGTs and six CHTs; which lines decode, and to what, is stated by `EmsDecoderFacts.DecodeSucceeds` and `EmsDecoderFacts.DecodeFields` |
| EmsDecoder.Take | lib/inputs/serial_d120.py:188-192 | `take(n)` returns `s[i:i+n]` (exactly n characters when they are there) and moves `i` on by n |
| EmsDecoder.TakeInt | lib/inputs/serial_d120.py:196-217 | converting `take(n)` at field k gives the conversion of field k and leaves `i` at the start of field k + 1 |
| EmsDecoder.TakeInts | lib/inputs/serial_d120.py:229-231 | the loop's result is the run's values, or None from the first refusal; on success `i` is past the run |
| EmsDecoder.ParseEmsLine | lib/inputs/serial_d120.py:185-267 | the method's result is the reading of the converted fields, or None when any numeric field is refused |
| EmsDecoderFacts.AllSomeValues | lib/inputs/serial_d120.py:229-231 | a run of successful conversions gives the list of their values |
| EmsDecoderFacts.ReadingOfValues | lib/inputs/serial_d120.py:239-265 | where every numeric field converted, the reading holds those integers with their units applied |
| EmsDecoderFacts.ReadingOfNumeric | lib/inputs/serial_d120.py:219-236 | two field lists that agree on the numeric fields give the same reading |
| EmsDecoderFacts.ReadingOfFields | lib/inputs/serial_d120.py:239-265 | each member of a reading is the integer of its field, scaled by its unit |
| EmsDecoderFacts.DecodeSucceeds | lib/inputs/serial_d120.py:194-267 | a line decodes exactly when `int()` accepts every numeric field of it |
| EmsDecoderFacts.DecodeFields | lib/inputs/serial_d120.py:194-265 | each member of a decoded reading is `int()` of its field, scaled by its unit; EGTs are fields 19-24 and CHTs fields 25-30, in order |
| EmsDecoderFacts.ShortLineRejected | lib/inputs/serial_d120.py:234-267 | a line too short to reach the second contact is refused |
| EmsDecoderFacts.OnlyNumericFieldsMatter | lib/inputs/serial_d120.py:219-236 | the three general-purpose inputs, the thermocouple and the product id are never read |
| EmsDecoderFacts.TrailingTextIgnored | lib/inputs/serial_d120.py:236 | nothing from the product id on changes the decoding |
| EmsDecoderFacts.SamePrefixDecodes | lib/inputs/serial_d120.py:185-236 | lines that agree on their first 115 characters decode alike |
| EmsDecoderFacts.EncodeFieldsNumerals | lib/inputs/serial_d120.py:194-236 | a line written in the field format holds only digits and minus signs |
| EmsDecoderFacts.EncodeFieldsPrefix | lib/inputs/serial_d120.py:188-192 | writing more fields only appends to the line |
| EmsDecoderFacts.FieldOfPrefix | lib/inputs/serial_d120.py:188-192 | field k of a line is the tail of any prefix of it that ends with field k |
| EmsDecoderFacts.EncodedField | lib/inputs/serial_d120.py:188-236 | field k of a written line is the text field k was written as |
| EmsDecoderFacts.EncodeDecode | lib/inputs/serial_d120.py:194-265 | a line written from values that fit their fields decodes to exactly those values |
| SerialD120.AsciiEncode | lib/inputs/serial_d120.py:83 | `encode("ascii", errors="ignore")` gives ASCII bytes only, never more than the text |
| SerialD120.AsciiDecode | lib/inputs/serial_d120.py:96 | `decode("ascii", errors="ignore")` gives ASCII characters only, never more than the bytes |
| SerialD120.AsciiRoundTrip | lib/inputs/serial_d120.py:83-96 | ASCII text survives the encode and the decode unchanged |
| SerialD120.AsciiDecodeAppend | lib/inputs/serial_d120.py:96 | decoding bytes piece by piece equals decoding them at once |
| SerialD120.AsciiDecodeByte | lib/inputs/serial_d120.py:96 | `decode("ascii", errors="ignore")` turns an ASCII byte into its character and drops a byte of 128 or more; with `AsciiDecodeAppend` this fixes the decoding of every byte string |
| SerialD120.AsciiEncodeChar | lib/inputs/serial_d120.py:83 | `encode("ascii", errors="ignore")` turns an ASCII character into its byte and drops any other character |
| SerialD120.AsciiEncodeAppend | lib/inputs/serial_d120.py:83 | encoding a text piece by piece equals encoding it at once, so the ASCII characters are kept in order and the others dropped |
| SerialD120.AsciiDecodeKeeps | lib/inputs/serial_d120.py:96 | ASCII bytes decode to one character each |
| SerialD120.ForeignTextDropped | lib/inputs/serial_d120.py:83 | a text with no ASCII character encodes to no bytes |
| SerialD120.RawBytes | lib/inputs/serial_d120.py:77-88 | bytes from the port are checked as they came; a playback line is checked as its ASCII encoding, which holds ASCII bytes only and never more bytes than the line has characters |
| SerialD120.NothingRead | lib/inputs/serial_d120.py:79-88 | when `readline()` gives nothing there are no bytes to check |
| SerialD120.FrameText | lib/inputs/serial_d120.py:96 | the text handed to the decoder is ASCII, no longer than the line, and neither starts nor ends with whitespace |
| SerialD120.Classify | lib/inputs/serial_d120.py:69-102 | a line is skipped exactly when the exit flag or `skipReadInput` is set |
| SerialD120.ClassifyCases | lib/inputs/serial_d120.py:69-102 | nothing read is NoData; a line read that fails the check is a bad checksum; one that passes the check but does not decode is a bad line |
| SerialD120.ClassifyLine | lib/inputs/serial_d120.py:69-102 | the checks made in `readMessage`'s order, with `_parse_ems_line` run as `ParseEmsLine` with `int()`, give exactly `Classify` |
| SerialD120.EngineAfter | lib/inputs/serial_d120.py:104-136 | the EGT and CHT lists keep their lengths; the last line is the text and the count goes up by one; the cylinder count is the longer of the EGT and CHT readings, and stays when both are empty |
| SerialD120.FuelAfter | lib/inputs/serial_d120.py:138-148 | `FuelLevels` is padded to two slots and otherwise keeps its length; its first two slots are the tank levels; the total is the remaining fuel; the count goes up by one |
| SerialD120.Overlaid | lib/inputs/serial_d120.py:124-131 | slot i takes the i-th reading where there is one and keeps its value otherwise; the list keeps its length |
| SerialD120.UpdatedLevels | lib/inputs/serial_d120.py:139-144 | the list is padded to two slots with 0.0, its first two slots are the tank levels, and the rest is unchanged |
| SerialD120.Overlay | lib/inputs/serial_d120.py:124-131 | the array afterwards is the old contents overlaid with the readings, in place |
| SerialD120.SerialD120.constructor | lib/inputs/serial_d120.py:21-59 | both counters start at zero, with fresh engine and fuel objects |
| SerialD120.SerialD120.RecordEngine | lib/inputs/serial_d120.py:104-136 | the engine object afterwards is `EngineAfter` of its old state: scalars replaced, EGT and CHT overlaid, cylinder count set, line kept, count up by one |
| SerialD120.SerialD120.RecordFuel | lib/inputs/serial_d120.py:138-148 | the fuel object afterwards is `FuelAfter` of its old state: levels padded and set, total set, count up by one |
| SerialD120.SerialD120.ReadMessage | lib/inputs/serial_d120.py:69-168 | the outcome is `Classify` of the flags and the line; `msg_bad` goes up by one exactly on a bad checksum or a bad line; `msg_unknown` and the skip flag stay; the engine and fuel objects change only on an accepted line, as `EngineAfter` and `FuelAfter` say |
| SerialD120.ForeignPlaybackLineCounted | lib/inputs/serial_d120.py:77-94 | a non-empty playback line with no ASCII character is counted as a bad checksum, not skipped |
| SerialD120.PlaybackAsSerial | lib/inputs/serial_d120.py:77-97 | an ASCII playback line is judged exactly like the same bytes from the port |
| SerialD120.CorruptedLineCounted | lib/inputs/serial_d120.py:90-94 | a sealed line with one payload byte changed is counted as a bad checksum |
| SerialD120.SealedAscii | lib/inputs/serial_d120.py:96 | a sealed payload decodes as its text, the two checksum characters, CR and LF |
| SerialD120.SealedFrameText | lib/inputs/serial_d120.py:90-96 | a sealed ASCII text of two or more characters whose first character is not whitespace passes the check, and the decoder is handed the text followed by the checksum pair |
| SerialD120.CheckedLineAccepted | lib/inputs/serial_d120.py:86-102 | a port line that passes the check and decodes is accepted with that reading and that text |
| SerialD120.EncodedText | lib/inputs/serial_d120.py:96 | a written line is ASCII and does not start with whitespace |
| SerialD120.SealedEncodedLine | lib/inputs/serial_d120.py:90-97 | a written line, sealed, passes the check and decodes as the line itself |
| SerialD120.SealedFrameAccepted | lib/inputs/serial_d120.py:86-102 | a line written from values that fit, sealed and sent over the port, is accepted with exactly those values |
| SerialD120.AcceptedDecoded | lib/inputs/serial_d120.py:70-102 | an accepted line had no exit or skip flag, passed the check, and its text decodes to the reading |
| SerialD120.DecodedEngine | lib/inputs/serial_d120.py:105-136 | after a decoded line the engine has six cylinders, the RPM of field 10 in tens, the line as last message, and its count up by one |
| SerialD120.DecodedTemperatures | lib/inputs/serial_d120.py:121-131 | every EGT or CHT slot within reach of the six readings holds the integer of its field; slots beyond keep their value |
| SerialD120.DecodedFuel | lib/inputs/serial_d120.py:139-148 | after a decoded line, both tank levels and the total are the tenths of fields 13, 14 and 12; the other slots and their number stay |

## Left out

- Reading a line is not modelled: `readline()` on the serial port or the playback file becomes the `Received` value given to `ReadMessage`. Which variant it is stands for `isPlaybackMode`.
- Rewinding the playback file (`seek(0)`), `time.sleep`, the optional log file, `print` and `traceback` are left out. They do not change the state the model keeps.
- The `SerialException` and generic exception handlers (lines 159-166), which set `errorFoundNeedToExit`, are left out. In the model nothing in the mapping raises; the flag is an input of `ReadMessage`.
- EngineAfter: the `round()` calls (to 1 or 2 decimals) on the engine readings are not applied. The values are exact reals, because floating point is not modelled.
- FuelAfter: the `round()` calls on the fuel levels and the total are not applied, for the same reason.
- Reading: the divisions by 100.0 and 10.0 are exact real divisions, not IEEE floating point.
- `int()` is modelled on ASCII text only. Unicode digits and Unicode whitespace are not modelled, because every text that reaches it has been through an ASCII decode, or is refused by `decode("ascii")` first.
- The `hasattr`/`isinstance` tests are assumed true: the engine object has the `Volts`, `Amps`, `EGT`, `CHT` and `NumberOfCylinders` fields, and the fuel object has `FuelLevels` and `FuelTotal`. The `parsed.get(..., default)` defaults are never used, since the decoder always fills every key.
- `lib/common/dataship/dataship_engine_fuel.py` is not part of this model. The engine and fuel objects start from the values their constructors here give.
- SerialD120.Valid: the EGT and CHT lists are assumed to be two different list objects.
- The registration of the engine and fuel objects in the dataship (`engine_index`, `fuel_index`, the ids and names) is left out. So are the configuration reads of `initInput` (port, baud rate, playback file name).
