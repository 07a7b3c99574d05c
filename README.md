# huanyango: a verified model of the Huanyang VFD driver

huanyango drives a Huanyang variable-frequency drive (a spindle inverter) over
an RS-485 line. It speaks Modbus RTU, and the user controls it with G-code. The
`HyInverter` object does four things:

- It takes G-code text, splits glued words (`M3S400`) apart and queues each
  token in a channel of capacity 10. A signed 32-bit counter tracks the tokens
  queued and not yet interpreted.
- An interpreter loop lower-cases and trims each token and turns it into a
  Modbus request: stop, run forward, run backward, set frequency or read the
  output frequency. It signs the request with a CRC-16/MODBUS trailer and
  writes it to the port.
- A parser loop gathers the bytes read from the port into a buffer. The buffer
  is cleared after a pause of more than 50 ms. The parser picks out the
  inverter's 8-byte answer to the frequency read and records the frequency and
  the time.
- A poller queues a frequency read (`?`) at a fixed interval. Queries report
  the last frequency, whether the inverter answered recently (`Online`), and
  whether all commands ran and the spindle is within 10% of the set frequency
  (`Processed`).

The model is in seven modules:

- `Wrappers` (wrappers.dfy): the `Option` type.
- `Crc16` (crc16.dfy): the checksum and `signMessage`, on `bv8`/`bv16`.
  - The register is preset to 0xFFFF and shifted right with the polynomial
    0xA001.
  - The two checksum bytes go low byte first.
  - This follows sections 2.5.1.2 and 6.2.2 of the *MODBUS over Serial Line
    Specification and Implementation Guide V1.02*.
- `Gcode` (gcode.dfy): the preprocessor.
  - The regular expression `([a-zA-Z][\-+]*\d+\.*\d*)\s*` is written as a
    greedy scanner. Its character classes follow one another without overlap,
    so greedy matching is leftmost-first matching. `MatchAtLongest` states that
    what the scanner finds is the longest word.
  - `ReplaceAllString(_, "$1 ")` is `Separate`, and `strings.Fields` is
    `Fields`.
- `GcodeExamples` (gcode_examples.dfy): the two examples from the driver's
  documentation, worked through.
- `Commands` (commands.dfy): what the interpreter does with one token.
  - `strings.ToLower`, `strings.TrimSpace` and `strconv.ParseUint(_, 10, 16)`.
  - The if-chain of the interpreter.
  - The request payload of each command, and the signed frame.
- `Telemetry` (telemetry.dfy): `parseModbusRTU`'s acceptance test, the
  buffer of the parser loop, and the checksum test as the code runs it (see
  Findings).
  - `Accepts` is the corrected test: it compares a freshly computed checksum
    with bytes 6 and 7. `ParseModbusRtu` and `ParserStep` use it.
- `Vfd` (inverter.dfy): the class `HyInverter`.
  - Its methods are one step of each loop: `GCode`, `ProcessorStep`,
    `PollStep`, `ParseModbusRtu` and `ParserStep`.
  - Its read-only queries are `OutputFrequency`, `OutputRpm`, `Online` and
    `Processed`.
  - The frames written to the port are kept in a ghost log, `written`.
  - `Valid()` holds between calls: the counter equals the queue length, which
    is at most 10.

Where the driver's description and its code differ, the model follows the
code:
- `end` and `m05` also stop the spindle (inverter.go:127). The list of
  aliases in the documentation of `GCode` (inverter.go:95) does not name them.
- `GCode` adds the number of tokens to the counter first. It then subtracts
  one for each token that does not fit (inverter.go:108, 115). It does not
  increment before each send.
- M2 appears in the documentation of `GCode` (inverter.go:95), but no branch
  handles it, so it is ignored (`Commands.M2Ignored`).

Times are integer milliseconds. The two float conversions are functions given
to the constructor:
- rpm to frequency, `uint16(float32(rpm) * rpmToHertz)`;
- frequency to rpm, `uint16(float32(f) / rpmToHertz)`.

## Model

| member | source | states |
|---|---|---|
| Crc16.CrcBytes | v1/vfdio/inverter.go:252-256 | the trailer is two bytes, low byte first, that join back into the CRC-16/MODBUS of the data |
| Crc16.Sign | v1/vfdio/inverter.go:252-256 | signMessage returns the payload unchanged followed by exactly two bytes holding its checksum, low byte first |
| Crc16.VerifyIffSigned | v1/vfdio/inverter.go:252-256 | a frame passes the receiver's check exactly when it is the signature of its own payload |
| Crc16.SignVerifies | v1/vfdio/inverter.go:252-256 | every signed frame passes the receiver's check |
| Crc16.VerifySplit | v1/vfdio/inverter.go:191-192 | the check on payload plus trailer holds exactly when the trailer bytes are the checksum's low and high bytes |
| Crc16.VerifyIffZeroResidue | v1/vfdio/inverter.go:252-256 | a frame passes the check exactly when the checksum over the whole frame, trailer included, is zero |
| Crc16.ResidueUnique | v1/vfdio/inverter.go:252-256 | from any register value, the checksum bytes of that value are the only two bytes that clear the register |
| Crc16.FeedAppend | v1/vfdio/inverter.go:253-254 | checksumming a concatenation is checksumming its parts in turn |
| Crc16.StopVector | v1/vfdio/inverter_test.go:10-21 | the stop payload 01 03 01 08 signs to 01 03 01 08 F1 8E |
| Crc16.QueryVector | v1/vfdio/inverter.go:187-188 | the status request 01 04 03 01 00 00 signs to trailer A1 8E |
| Gcode.MatchAtWord | v1/vfdio/inverter.go:57 | at a text that starts with a letter, signs, digits, dots, digits and blanks in maximal runs, the match captures that word and consumes the blanks after it |
| Gcode.MatchAtLongest | v1/vfdio/inverter.go:57 | what the scanner captures is a word of the expression, no longer prefix of the text is one, and only white space follows it up to the end of the match |
| Gcode.NoMatchNoWord | v1/vfdio/inverter.go:57 | when the scanner finds nothing, no prefix of the text is a word of the expression |
| Gcode.MatchText | v1/vfdio/inverter.go:106 | replacing a match by its word and one space keeps its non-space text |
| Gcode.SeparateKeepsText | v1/vfdio/inverter.go:106 | the rewrite only inserts and removes white space: the non-space text is unchanged |
| Gcode.SeparateWord | v1/vfdio/inverter.go:106 | at a match, the rewrite is the captured word, one space, then the rewrite of what follows the match |
| Gcode.FieldsShape | v1/vfdio/inverter.go:107 | every field is non-empty and contains no white space |
| Gcode.FieldsKeepText | v1/vfdio/inverter.go:107 | the fields, joined, are exactly the non-space text, in order |
| Gcode.FieldsAt | v1/vfdio/inverter.go:107 | after leading blanks, the first field is the maximal run of non-space characters |
| Gcode.FieldsOfBlank | v1/vfdio/inverter.go:107 | a blank text has no fields |
| Gcode.FieldsOfSpaced | v1/vfdio/inverter.go:107 | non-empty space-free words joined by spaces, after any blanks, split back into exactly those words |
| Gcode.TokensKeepText | v1/vfdio/inverter.go:106-107 | the tokens GCode queues, joined, are the command's non-space text |
| Gcode.TokensOfSpaced | v1/vfdio/inverter.go:106-107 | a command that the rewrite turns into words joined by spaces is queued as those words |
| Gcode.WordShape | v1/vfdio/inverter.go:57 | a word of the expression starts with its only letter and contains no white space |
| Gcode.MatchAtGlued | v1/vfdio/inverter.go:57 | a word followed directly by another word's letter, or by nothing, is matched exactly, with no trailing space |
| Gcode.SeparateGlued | v1/vfdio/inverter.go:106 | words written back to back are rewritten into those words, each followed by one space |
| Gcode.GluedWords | v1/vfdio/inverter.go:106-107 | any command made of words glued together is queued as exactly those words, in order |
| GcodeExamples.GluedExample | v1/vfdio/inverter.go:100 | `M3S400` is queued as `M3`, `S400` |
| GcodeExamples.SeparatorRewrite | v1/vfdio/inverter.go:50-56 | the documented command is rewritten to `N12 S20 F200 M3 G28.3 Z-100 Y-29.3 ` |
| GcodeExamples.SeparatorExample | v1/vfdio/inverter.go:50-57 | `N12S20 F200M3 G28.3Z-100 Y-29.3` is queued as seven tokens, one per word |
| Commands.ToLowerSpec | v1/vfdio/inverter.go:126 | lower-casing keeps the length, turns each upper-case letter into its lower-case letter (code point plus 32), leaves no upper-case letter, changes nothing else and is idempotent |
| Commands.ToLowerNoSpace | v1/vfdio/inverter.go:126 | lower-casing a token without white space gives a token without white space |
| Commands.TrimSpaceSpec | v1/vfdio/inverter.go:126 | trimming removes only white space, from both ends, and leaves text that starts and ends with a non-space character |
| Commands.TrimSpaceOfField | v1/vfdio/inverter.go:126 | a token strings.Fields produced is left unchanged by trimming |
| Commands.ParseUint16Iff | v1/vfdio/inverter.go:140-141 | the parse succeeds with v exactly when the text is non-empty decimal digits whose value is v and v is at most 65535 |
| Commands.ParseDecimal | v1/vfdio/inverter.go:140 | every 16-bit number's decimal numeral parses back to it |
| Commands.LeadingZero | v1/vfdio/inverter.go:140 | a leading zero changes neither success nor value of the parse |
| Commands.StopIff | v1/vfdio/inverter.go:127-130 | a token means stop exactly when it is one of end, m0, m1, m30, m60, m5, m05 |
| Commands.RunIff | v1/vfdio/inverter.go:131-157 | forward exactly for m3/m03, backward exactly for m4/m04, status request exactly for `?` |
| Commands.SetSpeedIff | v1/vfdio/inverter.go:139-152 | a token sets speed v exactly when it is `s` followed by a numeral the parse accepts with value v; a failed parse is ignored |
| Commands.ClassifySpell | v1/vfdio/inverter.go:127-157 | every command has a spelling the if-chain recognises as that command: no branch shadows another |
| Commands.M2Ignored | v1/vfdio/inverter.go:95-157 | M2, though documented, is ignored |
| Commands.BigEndian | v1/vfdio/inverter.go:144-145 | the two bytes, high byte first, join back into the frequency |
| Commands.PayloadShape | v1/vfdio/inverter.go:127-157 | only an ignored token has no payload; every payload is for slave 1; function 3 is used exactly by stop and run; a speed payload has five bytes whose last two hold the frequency, high byte first |
| Commands.PayloadInjective | v1/vfdio/inverter.go:127-157 | different commands write different payloads, except two speeds with the same frequency |
| Commands.StopFrame | v1/vfdio/inverter.go:127-130 | the stop frame is 01 03 01 08 F1 8E |
| Commands.QueryFrame | v1/vfdio/inverter.go:153-156 | the status request frame is 01 04 03 01 00 00 A1 8E |
| Telemetry.ResponseAccepted | v1/vfdio/inverter.go:188-196 | every answer to the status request is accepted and yields the frequency it carries |
| Telemetry.BigEndianOfRead | v1/vfdio/inverter.go:193-196 | the frequency read from bytes 4 and 5 splits back into those bytes |
| Telemetry.AcceptsIffResponse | v1/vfdio/inverter.go:189-192 | a message is accepted exactly when it is the answer for the frequency it carries |
| Telemetry.AcceptsIffVerify | v1/vfdio/inverter.go:189-192 | acceptance is the 8-byte length, the header 01 04 03 01, and the Modbus checksum test |
| Telemetry.CorruptTrailerRejected | v1/vfdio/inverter.go:191-192 | changing a checksum byte of an accepted message makes it rejected |
| Telemetry.SignInPlace | v1/vfdio/inverter.go:252-256 | signing a slice with room left appends the checksum into the same array and changes nothing after it |
| Telemetry.AcceptsAsWritten | v1/vfdio/inverter.go:189-192 | as written, the test accepts exactly the 8-byte messages with the right header, whatever their trailer |
| Telemetry.ZeroTrailerAccepted | v1/vfdio/inverter.go:189-192 | the message 01 04 03 01 00 00 00 00 is accepted as written and rejected by the fresh checksum test |
| Telemetry.Gather | v1/vfdio/inverter.go:174-181 | after a pause of more than 50 ms the new buffer is exactly the bytes read, or empty when the read failed or returned nothing; otherwise it is the old buffer followed by those bytes, or the old buffer unchanged |
| Telemetry.OverlongStaysDead | v1/vfdio/inverter.go:175-189 | once the buffer holds more than 8 bytes, reads without a pause never deliver an answer |
| Telemetry.SplitAnswerDelivered | v1/vfdio/inverter.go:172-183 | an answer split across two reads, after a pause and then within 50 ms, is delivered by the second read |
| Vfd.Wrap32 | v1/vfdio/inverter.go:108 | int32 arithmetic: the result is in the int32 range and agrees with the exact sum modulo 2^32 |
| Vfd.Wrap32Add | v1/vfdio/inverter.go:108-115 | wrapping an intermediate sum does not change the final int32 |
| Vfd.AdmitPrefix | v1/vfdio/inverter.go:109-118 | offering tokens one by one with non-blocking sends queues the longest prefix that fits and drops the rest |
| Vfd.Offer | v1/vfdio/inverter.go:105-119 | the channel gets the tokens that fit, in order; the counter ends equal to the new queue length; ok is false exactly when a token was dropped |
| Vfd.QueryTokens | v1/vfdio/inverter.go:164 | the poller's command is the single token `?` |
| Vfd.InBandReached | v1/vfdio/inverter.go:228-234 | an output frequency equal to the set frequency is within the band |
| Vfd.InBandStopped | v1/vfdio/inverter.go:228-234 | with set frequency zero, only a zero output frequency is within the band |
| Vfd.HyInverter.constructor | v1/vfdio/inverter.go:70-90 | a fresh driver has an empty queue, a zero counter, zero frequencies, no answer yet and an empty parser buffer |
| Vfd.HyInverter.GCode | v1/vfdio/inverter.go:104-120 | the tokens that fit are queued in order, the counter grows by the number accepted and stays equal to the queue length, ok is false exactly when a token was dropped, and nothing else changes |
| Vfd.HyInverter.ProcessorStep | v1/vfdio/inverter.go:122-159 | the oldest token leaves the queue and the counter drops by one; the frame its command calls for is written; a speed command sets the set frequency; any other token changes nothing else |
| Vfd.HyInverter.PollStep | v1/vfdio/inverter.go:161-166 | a status request is queued when there is room, and nothing else changes |
| Vfd.HyInverter.ParseModbusRtu | v1/vfdio/inverter.go:186-202 | with the corrected checksum test (see Findings), an accepted answer sets the output frequency from bytes 4-5 (big-endian), the rpm from it, and the time of the last answer; anything else changes nothing |
| Vfd.HyInverter.ParserStep | v1/vfdio/inverter.go:168-184 | the buffer is cleared after more than 50 ms and extended by a successful non-empty read; the telemetry changes exactly when the new buffer passes the corrected checksum test; the time of the read is always recorded |
| Vfd.HyInverter.Processed | v1/vfdio/inverter.go:227-240 | the frequency flag holds exactly when the output frequency is within 10% of the set one; the commands flag exactly when the counter is zero, which between calls means the queue is empty; processed is both |
| Vfd.ProcessedIffDrained | v1/vfdio/inverter.go:235-238 | between calls, the commands count as processed exactly when the queue is empty |
| Vfd.AnswerSeen | v1/vfdio/inverter.go:204-223 | after an answer is accepted, OutputFrequency is its frequency, OutputRpm its conversion to rpm, and the driver is online for exactly two poll intervals |
| Vfd.OfflineUntilAnswer | v1/vfdio/inverter.go:216-223 | before the first accepted answer the driver is never online |
| Vfd.OnlineFades | v1/vfdio/inverter.go:216-223 | without a new answer, a driver that is offline stays offline as time passes |

## Left out

- Opening the serial port, its options (including the 9200 baud constant), `Close`, the `once` guard, the goroutines and the `stop` flag. These are I/O and concurrency. Each loop body is one sequential step of the class.
- Concurrency between the loops. In particular, no token is taken from the channel while `GCode` runs, and the atomic counter and the telemetry fields are not shared between threads. The data races on `hash16` and on the telemetry fields are not modelled.
- The crc16 library is not part of this model. The checksum is written from the MODBUS standard, and the library's `Reset`/`Write`/`Sum` state is not modelled.
- The float conversions. rpm to frequency and frequency to rpm are functions passed to the constructor. `maxRpm` is stored by `Open` but never used, so it is left out.
- Vfd.InBand: the ±10% band of `Processed` uses exact integer arithmetic (9·set ≤ 10·out ≤ 11·set), not float32 with its rounding.
- Vfd.HyInverter.Online: the zero `time.Time` before the first answer is `None`, and then Online is false. In Go, the saturated duration would make it true only for poll intervals above about 146 years.
- The 110 ms pause after each write and the poll timer. This is timing only. Times are integer milliseconds. The read and the `time.Now()` inside `parseModbusRTU` are taken as the same instant.
- The log output at inverter.go:150-151. The `fmt.Errorf` result is discarded.
- Port write errors and short writes. The frames are kept in a ghost log. A read error is a flag, and its bytes are dropped as the code drops them.
- Characters outside ASCII. `strings.ToLower`, `strings.TrimSpace` and `strings.Fields` are modelled on ASCII only. Unicode white space such as U+0085 and U+00A0 and non-ASCII case mappings are not covered.
- Gcode.MatchAtLongest: the regular expression is modelled by a scanner, not by a general regex semantics. Leftmost-first matching is captured by the longest-word property this lemma proves.
- Vfd.HyInverter.ProcessorStep: it requires a queued token. The Go loop blocks on an empty channel instead.
- v1/cmd/huanyango-cli-demo/main.go, the command-line demo, is not part of this model.

## Findings

| source | as written | input that shows it | evidently intended | confidence | as-written member | corrected member |
|---|---|---|---|---|---|---|
| v1/vfdio/inverter.go:191-192 | `signMessage(msg[:6])` appends the checksum to a slice of `msg` that has room for 8 bytes. So the checksum is written into `msg[6]` and `msg[7]` themselves, and `signTest[6] == msg[6] && signTest[7] == msg[7]` always holds. Every 8-byte message with the header 01 04 03 01 is accepted. | `01 04 03 01 00 00 00 00` (the correct trailer is A1 8E) | compare a freshly computed checksum with the received bytes 6 and 7 | not executed; assumes `Hash16.Sum` appends as Go's `append` does, since the library is not part of this model | Telemetry.ZeroTrailerAccepted | Telemetry.AcceptsIffResponse |
