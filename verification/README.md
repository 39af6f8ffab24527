# OpenHMD core, modelled in Dafny

This project models the byte-level core of OpenHMD, the free head-mounted-display
driver library. That core is the code between the HID reads and the floating-point
sensor fusion. The models and their proofs cover:

- **General data structures.** The circular queue (`src/queue.c`), the singly linked
  list (`src/olist.c`), and the filter ring and 4x4 matrix initialisers of `src/omath.c`.
  The queue, list and filter ring are classes updated in place. The matrices are
  `array2` cells.
- **The embedded JSON parser** (`src/ext_deps/nxjson.c`). It covers hex digits, UTF-8
  encoding of code points (RFC 3629 section 3), and string unescaping with surrogate
  pairs (RFC 8259 section 7). It also covers the tree it builds, and lookup by key and
  by index.
- **Nreal Air** (`src/drv_nreal`):
  - the packet readers and the three report parsers;
  - CRC-32, reflected, with polynomial 0xEDB88320;
  - timestamp rollover, the sensor and control frame builders, and calibration
    segment assembly;
  - the button and display-mode state machine, and brightness levels.
- **Oculus Rift** (`src/drv_oculus_rift/packet.c`). It covers the 21-bit sample
  unpacking, the range, config and tracker decoders, and the config and keep-alive
  encoders.
- **Oculus Rift S** (`src/drv_oculus_rift_s`):
  - the HMD and controller report parsers, including the controller's block walker;
  - controller state update and the controller table;
  - the radio command queue and its request/response sequencing;
  - the JSON block reader;
  - the reference-counted HMD registry, device-id dispatch and update gating.
- **Windows Mixed Reality** (`src/drv_wmr`):
  - the motion-controller and HoloLens sensor decoders;
  - the chunked config read and the XOR decryption of the config store;
  - the key-matching walk over the JSON tree.
- **NOLO** (`src/drv_nolo/packet.c`). It covers XXTEA decryption of reports (proved to
  invert XXTEA encryption), the word repacking of a report, and the version guards of
  the decoders.
- **The filedev record.** This covers the reader's validation
  (`src/drv_file/file_reader.c`), the record layout (`drv_file_fmt.h`) and the writer
  script `examples/file_dev/set.py`.
- **HTC Vive** (`src/drv_htc_vive/packet.c`). It covers `trim` and the IMU report
  decoder.
- **VR-Tek** (`src/drv_vrtek/vrtek.c`). It covers SKU identification, the software
  version and display-type dispatch.

Bytes are the integers 0..255 (`Bytes.Byte`). Multi-byte fields are read and written
by little- and big-endian helpers. Sign extension, 32-bit wrap-around and unsigned
truncation are written out explicitly. Floats are carried as their 32-bit IEEE
patterns wherever the code only moves them.

Each imperative operation is a method over a class or an array, proved against a
specification function. The properties the source promises are lemmas about those
functions. For example, the queue is FIFO across wrap-around, NOLO decryption inverts
encryption, the WMR decryption is an involution, and the CRC table agrees with the
bitwise CRC.

HID traffic becomes parameters: a reply sequence for reads, and a log of sent
packets for writes.

## Model

| member | source | states |
|---|---|---|
| OhmdQueue.Queue.constructor | src/queue.c:25-38 | a new queue is empty, with both offsets 0 and the given max and element size |
| OhmdQueue.Queue.Push | src/queue.c:40-56 | succeeds exactly when size < max; then the element is appended to the held records and size rises by 1; on a full queue contents, size and offsets are unchanged |
| OhmdQueue.Queue.Pop | src/queue.c:58-74 | succeeds exactly when size > 0; then it yields the oldest record, drops it from the contents and lowers size by 1; on an empty queue nothing changes |
| OhmdQueue.Queue.GetSize | src/queue.c:76-85 | the number of records held, never above max |
| OhmdQueue.Queue.GetMax | src/queue.c:87-90 | the max given at create |
| OhmdQueue.AdvanceOffset | src/queue.c:48 | advancing an offset by one element modulo max*elem_size lands on the next slot, wrapping to 0 after the last |
| OhmdQueue.OffsetsAligned | src/queue.c:46-68 | read and write offsets stay below max*elem_size and are multiples of elem_size |
| OhmdQueue.Round | tests/unittests/queue.c:19-37 | ten pushes succeed, the eleventh is refused, and ten pops return 0..9 in push order |
| OhmdQueue.FillTen | tests/unittests/queue.c:19-24 | ten pushes into an empty queue of ten all succeed and leave 0..9 in push order |
| OhmdQueue.DrainTen | tests/unittests/queue.c:30-37 | ten pops from the full queue return 0..9 and leave it empty |
| OhmdQueue.PushPopScenario | tests/unittests/queue.c:12-61 | both rounds of the unit test return 0..9 in order, the second over wrapped offsets |
| OList.Link.constructor | src/olist.c:32-33 | a new link holds a copy of the element and no successor |
| OList.List.constructor | src/olist.c:16-28 | a new list is empty |
| OList.List.Insert | src/olist.c:30-50 | on an empty list (after == NULL) the new link becomes first and last; otherwise it is spliced directly after `after`, and becomes last exactly when `after` was last |
| OList.List.SpliceAfter | src/olist.c:40-46 | the link sequence gains the new link right after position i, everything else in order |
| OList.List.Append | src/olist.c:62-76 | the element becomes the new last link, the earlier order is kept, and the caller's element pointer is returned |
| OList.List.GetFirst | src/olist.c:52-55 | null exactly when the list is empty, else the first element |
| OList.List.GetNext | src/olist.c:57-60 | the link after the given one, null after the last |
| OList.List.Elements | tests/unittests/olist.c:40-42 | traversal from first via next visits the elements in list order |
| OList.InsertTen | tests/unittests/olist.c:22-27 | ten chained inserts give 0..9, and `mid` is the fifth link |
| OList.InsertMid | tests/unittests/olist.c:29-33 | inserting 666 after the fifth link puts it between 4 and 5 |
| OList.AppendTwo | tests/unittests/olist.c:35-36 | appending 777 and 888 puts them at the end, after 9 |
| OList.InsertScenario | tests/unittests/olist.c:12-43 | the unit test's traversal yields 0..4, 666, 5..9, 777, 888 |
| OMath.FilterQueue.constructor | src/omath.c:276-280 | every slot zero, `at` 0, size as given |
| OMath.FilterQueue.Add | src/omath.c:282-286 | the sample is stored at `at`, `at` advances modulo size so 0 <= at < size, and every other slot is untouched |
| OMath.WindowKeepsNewest | src/omath.c:282-286 | after any run of adds the queue holds the newest `size` samples, sample k in slot k % size, and nothing at or beyond size |
| OMath.Transposed | src/omath.c:239-260 | cell [j][i] of the result is cell [i][j] of the input |
| OMath.TransposeInvolution | src/omath.c:239-260 | transposing twice gives the original matrix |
| OMath.InitIdent | src/omath.c:151-158 | 1.0f on the diagonal, 0 elsewhere |
| OMath.InitTranslate | src/omath.c:231-237 | the identity except m[0..2][3] = x, y, z |
| OMath.Transpose | src/omath.c:239-260 | the output matrix is the transpose of the input, which is left unchanged |
| NxJsonText.HexVal | src/ext_deps/nxjson.c:83-88 | -1 exactly for a non-hex character, otherwise a digit value 0..15 |
| NxJsonText.HexValInvertsDigit | src/ext_deps/nxjson.c:83-88 | hex_val of the lower- or upper-case digit for v is v, for every v < 16 |
| NxJsonText.UnicodeToUtf8 | src/ext_deps/nxjson.c:69-79 | rejects exactly the surrogates 0xD800..0xDFFF and code points from 0x110000; otherwise emits 1, 2, 3 or 4 bytes by range |
| NxJsonText.Utf8RoundTrip | src/ext_deps/nxjson.c:69-79 | an independent UTF-8 decoder (RFC 3629 section 3) recovers every accepted code point from the emitted bytes |
| NxJsonText.SurrogateRanges | src/ext_deps/nxjson.c:135-142 | the masks `(cp & 0xfc00) == 0xd800` and `== 0xdc00` select exactly 0xD800..0xDBFF and 0xDC00..0xDFFF |
| NxJsonText.CombineSurrogates | src/ext_deps/nxjson.c:146 | a high/low pair combines to a code point in 0x10000..0x10FFFF |
| NxJsonText.SplitSurrogates | src/ext_deps/nxjson.c:146 | the reference split of a supplementary code point gives a high and a low surrogate |
| NxJsonText.SurrogatesRoundTrip | src/ext_deps/nxjson.c:135-147 | combining and splitting are inverse on pairs and on supplementary code points |
| NxJsonText.HexQuad | src/ext_deps/nxjson.c:130-134 | four hex digits read inside the text give a value below 0x10000 |
| NxJsonText.UnicodeEscape | src/ext_deps/nxjson.c:122-147 | a `\u` escape yields a code point below 0x110000 and ends 5 bytes on, or 11 for a surrogate pair |
| NxJsonText.UnicodeBytes | src/ext_deps/nxjson.c:122-153 | an accepted `\u` escape gives at least one output byte, fewer than it consumed |
| NxJsonText.StepAt | src/ext_deps/nxjson.c:94-162 | one loop turn: a closing quote is at p; a piece consumes input and emits at least one byte |
| NxJsonText.StepKinds | src/ext_deps/nxjson.c:94-162 | NUL stops, a plain byte is copied, a known escape gives its byte, and an unknown escape or `\u` without an encoder keeps the backslash |
| NxJsonText.UnicodeStep | src/ext_deps/nxjson.c:122-153 | with the encoder, an invalid `\u` escape is an error and a valid one emits its UTF-8 bytes |
| NxJsonText.UnescapeFrom | src/ext_deps/nxjson.c:90-166 | a decoded string ends just after a closing quote inside the text; a missing quote is an error |
| NxJsonText.UnescapeClose | src/ext_deps/nxjson.c:95-98 | a quote at p ends an empty string one byte on |
| NxJsonText.EscapeByte | src/ext_deps/nxjson.c:100-121 | the reference escaper writes a byte as itself or as a backslash and a letter that unescapes to it |
| NxJsonText.Escape | src/ext_deps/nxjson.c:100-121 | escaping never shortens a string |
| NxJsonText.UnescapeEscaped | src/ext_deps/nxjson.c:90-166 | unescaping any escaped NUL-free string followed by a quote gives the string back and ends after the quote |
| NxJsonText.WriteUnicodeEscape | src/ext_deps/nxjson.c:128-153 | writes exactly the bytes UnicodeBytes gives, fails exactly when it gives none, and leaves the output prefix alone |
| NxJsonText.UnescapeTurn | src/ext_deps/nxjson.c:94-99 | a loop turn either advances the decoding, finishes it at the closing quote, or fails as UnescapeFrom does |
| NxJsonText.EscapeTurn | src/ext_deps/nxjson.c:100-158 | a backslash turn advances or fails as UnescapeFrom does, and never finishes |
| NxJsonText.UnicodeTurn | src/ext_deps/nxjson.c:122-153 | a `\u` turn advances or fails as UnescapeFrom does |
| NxJsonText.UnescapeString | src/ext_deps/nxjson.c:90-166 | succeeds exactly when UnescapeFrom does; the decoded bytes and a terminator are written in place at s, nothing before s or from the end index on changes |
| NxJson.CreateJson | src/ext_deps/nxjson.c:41-56 | the parent gains exactly one child, appended after its existing children |
| NxJson.ItemAfterCreate | src/ext_deps/nxjson.c:47-54 | after create_json the new child is item number old-length and every earlier item is unchanged |
| NxJson.KeyIndex | src/ext_deps/nxjson.c:357-359 | the index of the first child carrying the key, or none when no child carries it |
| NxJson.KeyIndexAfterAppend | src/ext_deps/nxjson.c:47-54 | appending a child leaves the first key match where it was, else finds the new child by its key |
| NxJson.GetAfterCreate | src/ext_deps/nxjson.c:354-361 | nx_json_get after create_json returns the earlier match, the new child, or the dummy |
| NxJson.Get | src/ext_deps/nxjson.c:354-361 | the first child whose key matches, and the dummy (never null) for a missing node, key or match |
| NxJson.Item | src/ext_deps/nxjson.c:363-370 | the idx-th child, and the dummy for a missing node or an index out of range |
| NxJson.GrowsAdopt | src/ext_deps/nxjson.c:244-261 | linking a parsed node keeps the container's fields and earlier children and appends only keyed (object) or unkeyed (array) children |
| NxJson.GrowsTrans | src/ext_deps/nxjson.c:246-261 | successive appends compose |
| NxJson.CString | src/ext_deps/nxjson.c:293-309 | the bytes before the first NUL, which the C string functions see |
| NxJson.StrChr | src/ext_deps/nxjson.c:176 | the first occurrence of c at or after i, or none when a NUL comes first |
| NxJson.CommentEnd | src/ext_deps/nxjson.c:175-182 | a block comment ends just after a `*/` inside the text |
| NxJson.SkipBlockComment | src/ext_deps/nxjson.c:168-183 | a skipped block comment ends inside the text, past its opening |
| NxJson.SkipComment | src/ext_deps/nxjson.c:315-333 | a skipped line or block comment ends past its start, inside the text |
| NxJson.DigitVal | src/ext_deps/nxjson.c:274 | the digit value strtoll gives a character; below 10 exactly for '0'..'9' |
| NxJson.DigitsEnd | src/ext_deps/nxjson.c:274 | the end of the longest run of digits valid in the base |
| NxJson.StrToLL | src/ext_deps/nxjson.c:274-278 | a scanned integer consumes at least one byte and fits in `long long`; no digits or ERANGE is a failure |
| NxJson.ExponentEnd | src/ext_deps/nxjson.c:281 | the end of strtod's exponent part, inside the text |
| NxJson.FractionEnd | src/ext_deps/nxjson.c:281 | the end of strtod's fraction and exponent, inside the text |
| NxJson.ParseNumber | src/ext_deps/nxjson.c:270-291 | fails iff errno already holds ERANGE, strtoll finds no digits or overflows, or the double's characters are out of strtod's range; otherwise a number node with the given key holding strtoll's value, a double exactly when '.', 'e' or 'E' follows the digits, ending after strtoll's digits or strtod's fraction and exponent |
| NxJson.ParseValue | src/ext_deps/nxjson.c:231-339 | a parsed value ends inside the text and never starts at a `}`; no node is produced only at a `]`, and a produced node carries the given key |
| NxJson.ParseElements | src/ext_deps/nxjson.c:254-261 | an array's items are appended as unkeyed children and the array ends past its opening |
| NxJson.SkipKeySpace | src/ext_deps/nxjson.c:192 | whitespace after a key is skipped up to a non-space or the terminator |
| NxJson.ParseKey | src/ext_deps/nxjson.c:185-229 | either the `}` that ends the object, or a NUL-free key followed by `:` |
| NxJson.ParseMembers | src/ext_deps/nxjson.c:243-253 | an object's members are appended as keyed children and the object ends past its opening; a `}` right after a key's colon ends the object and drops that key |
| NxJson.Parse | src/ext_deps/nxjson.c:345-352 | the root is the first child of an anonymous parent and has no key |
| NxJson.CStringNoNul | src/ext_deps/nxjson.c:264-269 | a byte string without NUL is seen whole by the C string functions |
| NxJson.QuotedDecodes | src/ext_deps/nxjson.c:264-268 | unescape_string reads an escaped NUL-free string back to its bytes and stops after the closing quote |
| NxJson.ParseValueDecoded | src/ext_deps/nxjson.c:264-269 | at a quote, parse_value gives a string node with the given key holding the unescaped bytes, ending where unescape_string ended |
| NxJson.ParseStringValue | src/ext_deps/nxjson.c:264-269 | a quote, `Escape(s)` and a quote parse to a string node holding exactly `s`, ending after the closing quote |
| NxJson.ParseWords | src/ext_deps/nxjson.c:292-315 | `true` and `false` parse to boolean nodes holding 1 and 0 and `null` to a null node, each ending after the word |
| NxJson.DecimalRun | src/ext_deps/nxjson.c:274 | strtoll's digit scan stops at the first non-digit of a decimal run |
| NxJson.ParseDecimal | src/ext_deps/nxjson.c:270-291 | a decimal digit run not starting with 0 and not followed by `.`, `e` or `E` parses to an integer node holding the digits' value, ending after the digits |
| NxJson.ParseKeyDecoded | src/ext_deps/nxjson.c:185-196 | a quoted NUL-free key followed by `:` is read as that key, with parsing resuming after the colon |
| NxJson.ParseKeyEscaped | src/ext_deps/nxjson.c:185-196 | a quote, `Escape(k)`, a quote and `:` are read as key `k`, resuming after the colon |
| NxJson.MembersClose | src/ext_deps/nxjson.c:200-201 | a `}` ends the object with its children unchanged, parsing resuming after it |
| NxJson.MembersKeyThenClose | src/ext_deps/nxjson.c:247-250 | a key followed directly by `}` ends the object without adding a child |
| NxJson.MembersStep | src/ext_deps/nxjson.c:247-252 | a key followed by a value links the value to the object and continues after it |
| NxJson.MembersKeyThenValue | src/ext_deps/nxjson.c:247-252 | a key, a value and `}` append exactly the value's node and end after the `}` |
| NxJson.ParseKeyWithoutValue | src/ext_deps/nxjson.c:247-250 | `"k":}` ends the object with no child added for `k` |
| NxJson.ParseOneMember | src/ext_deps/nxjson.c:247-252 | `"k":` then a value then `}` adds exactly one child, which carries key `k` |
| NxJson.ParseObject | src/ext_deps/nxjson.c:243-250 | a text starting with `{` parses to the object its members build |
| NxJson.GetOnlyChild | src/ext_deps/nxjson.c:354-361 | nx_json_get finds the only child of an object by that child's key |
| NxJson.ParseObjectOfOne | src/ext_deps/nxjson.c:243-252 | `{"k":` value `}` parses to an object whose only child is the value, and nx_json_get finds it by `k` |
| NxJson.ParseKeyWithoutValueExample | src/ext_deps/nxjson.c:247-250 | the text `{"a":}` parses to an object with no children |
| NrealCrc.Crc32 | src/drv_nreal/air.c:150-160 | the bitwise reflected CRC-32 (polynomial 0xEDB88320, preset 0xFFFFFFFF, final complement) is a 32-bit value |
| NrealCrc.StepLinear | src/drv_nreal/air.c:155-156 | one register shift is linear over XOR |
| NrealCrc.StepsLinear | src/drv_nreal/air.c:155-156 | any number of shifts is linear over XOR |
| NrealCrc.StepsShift | src/drv_nreal/air.c:155-156 | a value shifted up by n bits comes back after n register shifts |
| NrealCrc.StepsAdd | src/drv_nreal/air.c:155-156 | m shifts then n shifts are m+n shifts |
| NrealCrc.TableStep | src/drv_nreal/air.c:155-156 | one table step `((c >> 8) & 0xFFFFFF) ^ table[(c ^ b) & 0xFF]` equals feeding the byte bitwise |
| NrealCrc.Crc32Checksum | src/drv_nreal/air.c:150-160 | the table-driven loop over the first len bytes returns the bitwise CRC-32 of those bytes |
| NrealCrc.PolyHalvings | src/drv_nreal/air.c:119-148 | the polynomial and its first five halvings, the values the power-of-two table entries hold |
| NrealCrc.TableEntries | src/drv_nreal/air.c:119-148 | entries 0x00, 0x04, 0x08, 0x10, 0x20, 0x40, 0x80 of the literal table agree with the bitwise definition |
| NrealPacket.ReadI24 | src/drv_nreal/packet.c:36-45 | the 24-bit little-endian value sign-extended from bit 23 |
| NrealPacket.ReadI15 | src/drv_nreal/packet.c:65-73 | the 16-bit little-endian value with bit 15 flipped, read as signed: the unsigned value minus 0x8000 |
| NrealPacket.ReadSample | src/drv_nreal/packet.c:203-226 | the cursor reader consumes exactly one sample and yields the field layout SampleAt describes |
| NrealPacket.AxesRoundTrip | src/drv_nreal/packet.c:36-45 | three axes written as 24-bit fields read back unchanged |
| NrealPacket.ImuRoundTrip | src/drv_nreal/packet.c:206-218 | multiplier, divisor and 24-bit axes of a gyro or accel block read back unchanged |
| NrealPacket.MagRoundTrip | src/drv_nreal/packet.c:220-225 | the big-endian multiplier and divisor and the bit-15-flipped axes of the magnetometer block read back unchanged |
| NrealPacket.SampleRoundTrip | src/drv_nreal/packet.c:203-226 | every sample that fits the field widths is read back from its own encoding |
| NrealPacket.ParseSensorPacket | src/drv_nreal/packet.c:259-291 | accepted exactly when size is 64 and byte 0 is 1; temperature at 2, timestamp u64 at 4, sample at 12 |
| NrealPacket.ParseSensorControlData | src/drv_nreal/packet.c:293-318 | accepted exactly at size 64; length at 5, msgid at 7, the 56 data bytes from 8 |
| NrealPacket.ParseControl | src/drv_nreal/packet.c:320-351 | accepted exactly at size 64; length at 5, timestamp at 7, action at 15, the 42 data bytes from 22 |
| NrealAir.PutChecksum | src/drv_nreal/air.c:201-204 | bytes 1..4 become the checksum little-endian; byte 0 and everything from 5 on are unchanged |
| NrealAir.FrameFields | src/drv_nreal/air.c:199-204 | a frame whose bytes 1..4 hold the CRC-32 of the bytes from 5 on is intact |
| NrealAir.SensorPayload | src/drv_nreal/air.c:184-207 | the sensor frame: 0xAA, LE CRC-32 of bytes 5.., LE(3+len) at 5, msgid at 7, data from 8, 8+len bytes in all |
| NrealAir.ControlHeader | src/drv_nreal/air.c:620-634 | 17 header bytes: LE packet length, zero timestamp, LE msgid at offset 10, zero reserved bytes |
| NrealAir.PutControlHeader | src/drv_nreal/air.c:624-634 | bytes 5..21 become the control header and no other byte changes |
| NrealAir.ControlPayload | src/drv_nreal/air.c:615-646 | the control frame: 0xFD, LE CRC-32 of bytes 5.., LE(17+len) at 5, zero timestamp 7..14, LE msgid at 15, zero reserved 17..21, data from 22 |
| NrealAir.PutData | src/drv_nreal/air.c:197 | the data lands at the given offset and every other byte of the buffer is unchanged |
| NrealAir.CalcDelta | src/drv_nreal/air.c:326-338 | next-last modulo 2^32, plus 0x1000000 (again modulo 2^32) when that exceeds 0xFFFFFF |
| NrealAir.CalcDeltaCongruent | src/drv_nreal/air.c:326-338 | the delta is congruent to next-last modulo 2^24 for all 32-bit inputs |
| NrealAir.CalcDeltaRollover | src/drv_nreal/air.c:326-338 | for 24-bit tick counters the delta is the forward distance (next-last) mod 2^24, across a rollover too |
| NrealAir.ScaleBrightness | src/drv_nreal/air.c:162-168 | a device level 0..7 becomes floor(100*b/7) percent, levels above 7 clamp to 100 |
| NrealAir.UnscaleBrightnessAsWritten | src/drv_nreal/air.c:170-176 | a percentage becomes floor(7*s/100), s clamped to 100 |
| NrealAir.UnscaleLosesLevel | src/drv_nreal/air.c:162-176 | for every level 1..6 unscaling the reported percentage lands one level lower (3 -> 42% -> 2) |
| NrealAir.UnscaleBrightness | src/drv_nreal/air.c:170-176 | a percentage becomes the nearest level, round(7*s/100) |
| NrealAir.BrightnessRoundTrip | src/drv_nreal/air.c:162-176 | unscaling the scaled value gives back every level 0..7 |
| NrealAir.ReportedLevelIsStable | src/drv_nreal/air.c:944-947 | with the corrected rounding unscale, a reported percentage is a fixed point of unscale-then-scale; the source's truncating unscale, which adjust_brightness calls, does not keep it (ReportedLevelDrifts) |
| NrealAir.ReportedLevelDrifts | src/drv_nreal/air.c:944-945 | as written, a reported level 1..6 comes back from unscale-then-scale as the level below |
| NrealAir.WrittenLevelNotAbove | src/drv_nreal/air.c:944-945 | the truncated level never reports more than the wanted percentage |
| NrealAir.DispatchedAsWritten | src/drv_nreal/air.c:483-493 | as written, a report that fails to parse is dispatched on whatever the struct held |
| NrealAir.ShortReportDispatchesStale | src/drv_nreal/air.c:485-494 | a one-byte 0xAA report is dispatched as a calibration-length message whose length is the stale struct's bytes |
| NrealAir.ControlAsWritten | src/drv_nreal/air.c:767-776 | as written, a control report that fails to parse is acted on with stale contents |
| NrealAir.ShortReportActsOnStale | src/drv_nreal/air.c:769-776 | a two-byte report is acted on as the stale button press: a stale display toggle turns a display that is off on |
| NrealAir.NaHmd.constructor | src/drv_nreal/air.c:1026-1039 | no download, no static id, stream state 0, display off, state and wants brightness 0xFF and mode 0 |
| NrealAir.NaHmd.HandleGetCalDataLength | src/drv_nreal/air.c:381-403 | stores the LE length; a non-zero length gets a fresh zeroed buffer and rewinds the position; with a buffer the first segment is requested |
| NrealAir.NaHmd.HandleNextSegment | src/drv_nreal/air.c:405-451 | without a length it asks for one; a full buffer is left alone; else min(56, len-pos) bytes are appended so pos never passes len; completion hands on the text, marks the calibration valid, starts the IMU stream and resets buffer, length and position |
| NrealAir.NaHmd.HandleStartImuData | src/drv_nreal/air.c:453-466 | records the stream state, then asks for the static id if unknown, else for the calibration length if not valid |
| NrealAir.NaHmd.HandleGetStaticId | src/drv_nreal/air.c:468-480 | stores the LE static id and asks for the calibration length while it is not valid |
| NrealAir.NaHmd.HandleSensorControlDataMsg | src/drv_nreal/air.c:482-503 | a report that does not parse changes nothing; otherwise (ControlDataApplied) the stream state becomes 0xAA and the msgid at byte 7 selects the handler, each handler's effect stated on the report's bytes: 0x14 stores the length, allocates a zeroed buffer and requests the first segment; 0x15 requests the length, ignores a full buffer, or appends min(56, remaining) bytes from byte 8 and then completes the calibration or requests the next segment; 0x19 takes the stream state from byte 8 and requests the static id or the length; 0x1A stores the static id and requests the length while uncalibrated; buffer-management and unknown ids change nothing else |
| NrealAir.NaHmd.HandleSensorMsg | src/drv_nreal/air.c:505-544 | a report starting 0xAA hands no delta on and has the control-data path's whole effect: none for an unparsed report, ControlDataApplied for a parsed one; otherwise a parsed report becomes `last` with stream state 1, the IMU stream is re-requested while uncalibrated, and the rollover delta goes to fusion unless it reaches a second after fusion has run |
| NrealAir.NaHmd.HandleImuMsg | src/drv_nreal/air.c:513-543 | a report that parses becomes `last` with stream state 1, other state unchanged; the IMU stream is re-requested while uncalibrated; the rollover delta goes to fusion unless fusion has run and it reaches a second |
| NrealAir.NaHmd.HandleControlAction | src/drv_nreal/air.c:648-764 | brightness or mode replies with status 0 set state and wants; a button press acts as ButtonEffect; an async text means the display is on; anything else changes nothing |
| NrealAir.NaHmd.HandleButton | src/drv_nreal/air.c:684-733 | the state, wants and display flag change exactly as ButtonEffect says |
| NrealAir.NaHmd.HandleControlMsg | src/drv_nreal/air.c:766-778 | on the action at byte 15 and the data from byte 22: a brightness reply with status 0 sets current and wanted brightness to the scaled level, a display-mode reply with status 0 sets both modes, a button press has ButtonEffect of bytes 26 and 30, a text log turns the display on; other actions, non-zero statuses and reports that do not parse change nothing |
| NrealAir.NaHmd.AdjustBrightness | src/drv_nreal/air.c:933-957 | with the truncating unscale as written: nothing is sent when the wanted value is above 100, already current, or quantizes to the current level; otherwise the level is written and the state follows only a successful write; a written level never reports more than the wanted percentage |
| NrealAir.NaHmd.AdjustDisplayMode | src/drv_nreal/air.c:959-978 | only a wanted 2D or 3D mode differing from the current one is written, and the state follows only a successful write |
| NrealAir.ButtonEffect | src/drv_nreal/air.c:684-733 | the display toggle sets the display flag, brightness keys set state and wants, mode up from 2D wants 3D, mode down from 3D wants 2D, everything else is unchanged |
| NrealAir.ModeButtonsToggle | src/drv_nreal/air.c:710-727 | mode buttons never change the current mode and only ever want the other of 2D and 3D |
| RiftPacket.SensorRangeOf | src/drv_oculus_rift/packet.c:24-38 | a range report is accepted exactly at size 8 or 9 |
| RiftPacket.DecodeSensorRange | src/drv_oculus_rift/packet.c:24-38 | the cursor decoder returns exactly SensorRangeOf: command id at 1, accel scale at 3, gyro scale at 4, mag scale at 6 |
| RiftPacket.SensorRangeRoundTrip | src/drv_oculus_rift/packet.c:24-38 | a range written in the report layout, with either padding, decodes to itself |
| RiftPacket.SensorConfigOf | src/drv_oculus_rift/packet.c:67-81 | a config report is accepted exactly at size 7 or 8, and its packet interval is one byte |
| RiftPacket.DecodeSensorConfig | src/drv_oculus_rift/packet.c:67-81 | the cursor decoder returns exactly SensorConfigOf |
| RiftPacket.SensorConfigBytes | src/drv_oculus_rift/packet.c:139-147 | the encoded config is 7 bytes |
| RiftPacket.EncodeSensorConfig | src/drv_oculus_rift/packet.c:139-147 | writes 2, LE command id, flags, packet interval, LE keep-alive into the first 7 bytes, returns 7 and leaves the rest |
| RiftPacket.SensorConfigRoundTrip | src/drv_oculus_rift/packet.c:67-81 | decoding an encoded config gives it back exactly when the packet interval is below 256, and otherwise the interval cut to 8 bits |
| RiftPacket.SensorConfigResend | src/drv_oculus_rift/packet.c:139-147 | re-encoding a decoded 7-byte config starting with 2 reproduces the report |
| RiftPacket.KeepAliveBytes | src/drv_oculus_rift/packet.c:149-155 | the encoded keep-alive is 5 bytes |
| RiftPacket.EncodeKeepAlive | src/drv_oculus_rift/packet.c:149-155 | writes the keep-alive into the first 5 bytes, returns 5 and leaves the rest |
| RiftPacket.KeepAliveFields | src/drv_oculus_rift/packet.c:149-155 | byte 0 is 8, then the LE command id and the LE interval |
| RiftPacket.ToInt21 | src/drv_oculus_rift/packet.c:95-97 | the signed 21-bit value congruent to the field |
| RiftPacket.Fields21 | src/drv_oculus_rift/packet.c:91-93 | the three packed 21-bit fields of 8 bytes |
| RiftPacket.ShiftDown | src/drv_oculus_rift/packet.c:95-97 | a field at the top of an `int` shifted right arithmetically by 11 is that field sign-extended |
| RiftPacket.DecodeSample | src/drv_oculus_rift/packet.c:83-98 | each decoded component is a signed 21-bit value, in [-2^20, 2^20) |
| RiftPacket.DecodeSampleFields | src/drv_oculus_rift/packet.c:83-98 | decode_sample yields the three packed 21-bit fields sign-extended |
| RiftPacket.PackSample | src/drv_oculus_rift/packet.c:83-98 | the reference packing of three signed 21-bit values is 8 bytes |
| RiftPacket.PackedFields | src/drv_oculus_rift/packet.c:91-93 | the packed bytes hold each value modulo 2^21 in its field |
| RiftPacket.SampleRoundTrip | src/drv_oculus_rift/packet.c:83-98 | every triple of signed 21-bit values is decoded from its packing |
| RiftPacket.Samples | src/drv_oculus_rift/packet.c:113-120 | n samples, each an accel and a gyro slot of 8 bytes |
| RiftPacket.SamplesAt | src/drv_oculus_rift/packet.c:113-120 | sample k is read from offset 8 + 16k |
| RiftPacket.TrackerSensorOf | src/drv_oculus_rift/packet.c:100-129 | accepted exactly at size 62 or 64; min(num_samples, 3) samples; mag read at 56 after three 16-byte slots |
| RiftPacket.TrackerSensorParts | src/drv_oculus_rift/packet.c:107-111 | the header fields are num_samples at 1, LE timestamp at 2, last command id at 4, temperature at 6 |
| RiftPacket.DecodeSlots | src/drv_oculus_rift/packet.c:113-120 | the sample loop reads exactly Samples and ends at 8 + 16*actual |
| RiftPacket.DecodeTrackerSensorMsg | src/drv_oculus_rift/packet.c:100-129 | the cursor decoder returns exactly TrackerSensorOf |
| RiftSProtocol.I16 | src/drv_oculus_rift_s/rift-s-protocol.h:130-136 | a signed 16-bit field lies in [-32768, 32767] |
| RiftSProtocol.ParseHmdReport | src/drv_oculus_rift_s/rift-s-protocol.c:28-40 | a report is accepted exactly when byte 0 is 0x65 and the size is 64; it then holds three IMU samples |
| RiftSProtocol.I16Lossless | src/drv_oculus_rift_s/rift-s-protocol.h:130-136 | a signed 16-bit field re-encodes to the two bytes it was read from |
| RiftSProtocol.U32Lossless | src/drv_oculus_rift_s/rift-s-protocol.h:138-155 | a 32-bit little-endian field re-encodes to its four bytes |
| RiftSProtocol.HmdSampleLossless | src/drv_oculus_rift_s/rift-s-protocol.h:130-136 | every 15-byte IMU sample (marker, accel, gyro, temperature) re-encodes to its own bytes |
| RiftSProtocol.HmdEndsLossless | src/drv_oculus_rift_s/rift-s-protocol.h:138-155 | the header and trailer fields around the samples re-encode to their bytes |
| RiftSProtocol.HmdReportLossless | src/drv_oculus_rift_s/rift-s-protocol.c:37 | the parsed HMD report is the whole 64-byte buffer: encoding it gives the buffer back |
| RiftSProtocol.BlockSize | src/drv_oculus_rift_s/rift-s-protocol.h:34-43 | ids 08/0c/0d/0e take 2 bytes, 1b 4, 22 and 27 5, 91 19, any other id 0 |
| RiftSProtocol.Blocks | src/drv_oculus_rift_s/rift-s-protocol.c:89-125 | at most the given number of blocks, each a block of a known id and of its own size |
| RiftSProtocol.Flatten | src/drv_oculus_rift_s/rift-s-protocol.c:121 | the concatenation of the copied blocks |
| RiftSProtocol.FlattenAppend | src/drv_oculus_rift_s/rift-s-protocol.c:121-124 | copying one more block appends its bytes |
| RiftSProtocol.FlattenPrepend | src/drv_oculus_rift_s/rift-s-protocol.c:121-124 | a first block followed by the rest flattens to the block then the rest |
| RiftSProtocol.BlocksArePrefix | src/drv_oculus_rift_s/rift-s-protocol.c:89-125 | the blocks taken are a prefix of the data |
| RiftSProtocol.BlocksStop | src/drv_oculus_rift_s/rift-s-protocol.c:90-119 | the walk ends only when the slots are full, at most one byte is left, or the next id is unknown or cut short |
| RiftSProtocol.BlocksStep | src/drv_oculus_rift_s/rift-s-protocol.c:118-124 | one step takes exactly the next block and continues after it with one slot less |
| RiftSProtocol.ClampedDataLen | src/drv_oculus_rift_s/rift-s-protocol.c:75-78 | the length after clamping is at most the announced one and never runs past the report |
| RiftSProtocol.BlockData | src/drv_oculus_rift_s/rift-s-protocol.c:80-87 | the bytes after flags and log number the clamped length less 4 |
| RiftSProtocol.LeftoverAsWritten | src/drv_oculus_rift_s/rift-s-protocol.c:127-131 | as written: a short length leaves nothing over, otherwise all bytes after the blocks |
| RiftSProtocol.LeftoverOverflows | src/drv_oculus_rift_s/rift-s-protocol.c:127-131 | a 64-byte report claiming 54 bytes with an unknown first block leaves 50 bytes for the 48-byte extra_bytes |
| RiftSProtocol.ParseControllerReport | src/drv_oculus_rift_s/rift-s-protocol.c:42-134 | accepted iff id 0x67, size at least 62 and leftover fitting 48 bytes; device id from bytes 1-8, clamped length, flags and log; blocks are the walk, and blocks plus extra bytes are the data |
| RiftSProtocol.WalkStep | src/drv_oculus_rift_s/rift-s-protocol.c:118-124 | one loop step keeps the walk invariant: taken blocks cover the data so far and the rest walks to the full result |
| RiftSProtocol.WalkBlocks | src/drv_oculus_rift_s/rift-s-protocol.c:89-125 | the loop with the avail counter takes exactly Blocks and ends at the byte they cover |
| RiftSProtocol.ReportAccountsForData | src/drv_oculus_rift_s/rift-s-protocol.c:80-131 | the block bytes plus the leftover are exactly the clamped length less 4 |
| RiftSController.Trigger | src/drv_oculus_rift_s/rift-s-controller.c:189 | the trigger is a 12-bit value: byte 1 low nibble above byte 0 |
| RiftSController.Grip | src/drv_oculus_rift_s/rift-s-controller.c:190 | the grip is a 12-bit value: byte 2 above byte 1 high nibble |
| RiftSController.TrigGripRoundTrip | src/drv_oculus_rift_s/rift-s-controller.c:187-192 | any 12-bit trigger and grip packed into a 0x1b block read back unchanged |
| RiftSController.TrigGripLossless | src/drv_oculus_rift_s/rift-s-controller.c:187-192 | every 0x1b block is the packing of the trigger and grip read from it |
| RiftSController.JoystickX | src/drv_oculus_rift_s/rift-s-controller.c:194 | the X axis is the low 16 bits of the joystick word, signed |
| RiftSController.JoystickY | src/drv_oculus_rift_s/rift-s-controller.c:195 | the Y axis is the high 16 bits of the joystick word, signed |
| RiftSController.JoystickSplit | src/drv_oculus_rift_s/rift-s-controller.c:193-196 | the two signed axes together are exactly the 32-bit joystick word |
| RiftSController.ApplyBlock | src/drv_oculus_rift_s/rift-s-controller.c:174-221 | a trigger/grip block sets trigger and grip, an IMU block sets the timestamp from bytes 1-4 |
| RiftSController.LaterBlockWins | src/drv_oculus_rift_s/rift-s-controller.c:171-227 | a second block of the same id overrides the first entirely |
| RiftSController.ParsedBlocksKnown | src/drv_oculus_rift_s/rift-s-controller.c:222-225 | blocks the parser accepted never reach the invalid-id path |
| RiftSController.NonZero | src/drv_oculus_rift_s/rift-s-controller.c:253-263 | the NUL-free characters are never more than those given |
| RiftSController.FeedKeepsEverything | src/drv_oculus_rift_s/rift-s-controller.c:253-270 | feeding log characters loses none and reorders none: printed lines then the open line are the old line plus the non-NUL characters, and no line reaches 1024 bytes |
| RiftSController.LogUpdate | src/drv_oculus_rift_s/rift-s-controller.c:245-272 | the line stays printable, lines already printed stay, and a report that carries no new log bytes prints nothing |
| RiftSController.ControllerState.constructor | src/drv_oculus_rift_s/rift-s-controller.c:384-385 | a zeroed controller state for the new id with an empty log |
| RiftSController.ControllerState.UpdateState | src/drv_oculus_rift_s/rift-s-controller.c:161-275 | the blocks up to the first unknown id are applied in order; failure iff an unknown id or more than 48 extra bytes; on success the extra bytes, the log flags and the log follow the report |
| RiftSController.ControllerState.UpdateLog | src/drv_oculus_rift_s/rift-s-controller.c:245-272 | the log becomes LogUpdate of the old flags, old log, new flags and characters; nothing else changes |
| RiftSController.ControllerState.LogChar | src/drv_oculus_rift_s/rift-s-controller.c:254-269 | one character changes the log exactly as FeedChar says |
| RiftSController.FirstIndex | src/drv_oculus_rift_s/rift-s-controller.c:36-49 | the first index holding the id, or -1 exactly when no controller has it |
| RiftSController.ApplyRecord | src/drv_oculus_rift_s/rift-s-controller.c:33-52 | one device record keeps the type table well formed |
| RiftSController.ApplyRecords | src/drv_oculus_rift_s/rift-s-controller.c:32-53 | the records in order keep the type table well formed |
| RiftSController.RecordsSetLastType | src/drv_oculus_rift_s/rift-s-controller.c:32-53 | each controller ends with the type of the last record naming it, or its old type |
| RiftSController.TouchFromRecord | src/drv_oculus_rift_s/rift-s-controller.c:40-45 | a touch device is only redirected to a controller some record names as left (first) or right (second) |
| RiftSController.IdsOf | src/drv_oculus_rift_s/rift-s-controller.c:367-372 | the device ids of the active controllers, in table order |
| RiftSController.ReportBlocks | src/drv_oculus_rift_s/rift-s-controller.c:171-227 | the blocks of a parsed report all have known ids |
| RiftSController.RiftSHmd.constructor | src/drv_oculus_rift_s/rift-s-controller.c:350-398 | one user, no controllers, no touch devices, an empty radio queue |
| RiftSController.RiftSHmd.FindController | src/drv_oculus_rift_s/rift-s-controller.c:364-372 | the lookup returns the first controller with the id, or -1 |
| RiftSController.RiftSHmd.UpdateDeviceTypes | src/drv_oculus_rift_s/rift-s-controller.c:23-56 | a failed read changes nothing; otherwise the table becomes ApplyRecords of the records and nothing else changes |
| RiftSController.RiftSHmd.ApplyRecordTo | src/drv_oculus_rift_s/rift-s-controller.c:33-52 | one record updates the type table as ApplyRecord says |
| RiftSController.RiftSHmd.HandleControllerReport | src/drv_oculus_rift_s/rift-s-controller.c:349-398 | rejected iff parsing fails; dummy iff id 0; too many iff a new id meets a full table; a new id appends a zeroed controller and queues the configuration and calibration requests; the controller's inputs become the report's blocks applied in order |
| RiftSController.RiftSHmd.HandleFrom | src/drv_oculus_rift_s/rift-s-controller.c:364-397 | too many iff a new id meets a full table; a new id appends a zeroed controller and queues the configuration and calibration requests, a known one leaves the table and queue alone; the controller's inputs become the report's blocks applied in order |
| RiftSController.RiftSHmd.NewController | src/drv_oculus_rift_s/rift-s-controller.c:380-390 | the new controller is appended with the id and zero inputs, and the two radio requests are queued |
| RiftSController.RiftSHmd.RequestConfiguration | src/drv_oculus_rift_s/rift-s-controller.c:338-347 | queues the configuration command then the first calibration JSON read for that device |
| RiftSController.RiftSHmd.Refresh | src/drv_oculus_rift_s/rift-s-controller.c:392-397 | retrying the types never changes the table of controllers or the queue, and the report is applied |
| RiftSController.RiftSHmd.AddController | src/drv_oculus_rift_s/rift-s-controller.c:380-385 | a zeroed controller with the id is appended with an unknown type |
| RiftSController.RiftSHmd.UpdateController | src/drv_oculus_rift_s/rift-s-controller.c:396 | update_controller_state on that controller: succeeds iff the extra bytes fit, and applies the blocks |
| RiftSRadio.JsonReadCmd | src/drv_oculus_rift_s/rift-s-radio.c:240-246 | the 10-byte read command carries the offset as a little-endian word at 4 and the length at 8 |
| RiftSRadio.JsonNext | src/drv_oculus_rift_s/rift-s-radio.c:228-252 | finished iff the data reaches the block length, with a success completion; otherwise requests min(32, missing) bytes at the current offset and advances the offset |
| RiftSRadio.ReadJson | src/drv_oculus_rift_s/rift-s-radio.c:174-259 | a finished read reports to its own client; a continuing read keeps device and client and sends a 10-byte command |
| RiftSRadio.JsonHeader | src/drv_oculus_rift_s/rift-s-radio.c:190-216 | the header is accepted iff it has at least 4 bytes, file type 1 and length at most 4096; acceptance starts reading at offset 4, refusal reports failure |
| RiftSRadio.JsonAppend | src/drv_oculus_rift_s/rift-s-radio.c:217-252 | a later reply appends its bytes cut to what the block lacks; the read finishes iff the block is complete, else asks for the next chunk at the current offset |
| RiftSRadio.ReadJsonAsWritten | src/drv_oculus_rift_s/rift-s-radio.c:254-256 | as written: the failure path passes on the caller's success flag |
| RiftSRadio.ShortReplyReportsSuccess | src/drv_oculus_rift_s/rift-s-radio.c:182-185 | a 3-byte reply is reported as a success as written, as a failure once corrected |
| RiftSRadio.CopyLenAsWritten | src/drv_oculus_rift_s/rift-s-radio.c:218-225 | as written: the copy length is the reply's length byte cut only to what the block lacks |
| RiftSRadio.CopyOverreadsResponse | src/drv_oculus_rift_s/rift-s-radio.c:220-224 | a length byte of 255 with 4096 bytes missing copies more than the response holds |
| RiftSRadio.Pad | src/drv_oculus_rift_s/rift-s-radio.c:136-139 | the command bytes are copied to the front of the fixed-size command |
| RiftSRadio.Deliver | src/drv_oculus_rift_s/rift-s-radio.c:96-98 | a completion keeps the radio invariant and the send history, and appends at most one command to the queue |
| RiftSRadio.SendHead | src/drv_oculus_rift_s/rift-s-radio.c:47-56 | with nothing pending and a non-empty queue the head is sent and a result awaited; otherwise nothing changes |
| RiftSRadio.Run | src/drv_oculus_rift_s/rift-s-radio.c:41-103 | the update loop keeps the invariant and only extends what was sent and what was completed |
| RiftSRadio.Packets | src/drv_oculus_rift_s/rift-s-radio.c:49-53 | one radio packet per queued command |
| RiftSRadio.PacketsSlice | src/drv_oculus_rift_s/rift-s-radio.c:89-94 | the packets of a slice of the queue are that slice of the packets |
| RiftSRadio.SendHeadKeepsStream | src/drv_oculus_rift_s/rift-s-radio.c:47-56 | sending the head does not change the sent-then-queued stream |
| RiftSRadio.DeliverExtendsStream | src/drv_oculus_rift_s/rift-s-radio.c:96-98 | a completion can only add to the stream |
| RiftSRadio.PopKeepsStream | src/drv_oculus_rift_s/rift-s-radio.c:87-94 | popping the completed head keeps the stream |
| RiftSRadio.RunExtendsStream | src/drv_oculus_rift_s/rift-s-radio.c:41-103 | commands go out in the order they were queued: the stream before an update is a prefix of the stream after |
| RiftSRadio.PopOnlyOnFreshReply | src/drv_oculus_rift_s/rift-s-radio.c:66-77 | a busy reply only records its sequence number, a failed read or a repeated number changes nothing |
| RiftSRadio.IdleUpdate | src/drv_oculus_rift_s/rift-s-radio.c:58-59 | with nothing pending and nothing queued an update changes nothing |
| RiftSRadio.Failures | src/drv_oculus_rift_s/rift-s-radio.c:114-125 | clearing reports a failure to every command with a callback, at most one per command |
| RiftSRadio.FailuresStep | src/drv_oculus_rift_s/rift-s-radio.c:117-125 | the failures of one more command are the earlier ones followed by its own |
| RiftSRadio.Radio.constructor | src/drv_oculus_rift_s/rift-s-radio.c:105-112 | nothing pending, an empty queue, last sequence number -1 |
| RiftSRadio.Radio.QueueCommand | src/drv_oculus_rift_s/rift-s-radio.c:130-154 | appends the padded command with its callback; nothing else changes |
| RiftSRadio.Radio.GetJsonBlock | src/drv_oculus_rift_s/rift-s-radio.c:261-277 | appends the first JSON read command at offset 0 with a fresh read state |
| RiftSRadio.Radio.Clear | src/drv_oculus_rift_s/rift-s-radio.c:114-128 | the queue empties and every queued callback hears of a failure, in order |
| RiftSRadio.Radio.Update | src/drv_oculus_rift_s/rift-s-radio.c:41-103 | the new state is Run of the old state over the replies |
| RiftSRadio.Radio.Round | src/drv_oculus_rift_s/rift-s-radio.c:47-100 | one pass of the loop is one step of Run: when it consumes a response, Run over the rest continues from the new state; otherwise the new state is Run's result |
| RiftSRadio.Radio.DeliverTo | src/drv_oculus_rift_s/rift-s-radio.c:96-98 | delivering a completion changes the state as Deliver says |
| RiftS.Paths | src/drv_oculus_rift_s/rift-s.c:53-65 | the paths of the registry entries, in list order |
| RiftS.HmdIndex | src/drv_oculus_rift_s/rift-s.c:88-103 | the first entry holding the HMD, or -1 exactly when no entry does |
| RiftS.Unlink | src/drv_oculus_rift_s/rift-s.c:94-98 | removing entry k keeps the entries before it and shifts the ones after it down by one |
| RiftS.UpdateRuns | src/drv_oculus_rift_s/rift-s.c:237-255 | device id updates the HMD iff no device with a lower id is open |
| RiftS.OneUpdater | src/drv_oculus_rift_s/rift-s.c:242-254 | whenever a device is open, exactly the lowest open one runs the update: one runs, and no higher open one does |
| RiftS.Registry.constructor | src/drv_oculus_rift_s/rift-s.c:48 | the registry starts empty |
| RiftS.Registry.FindHmd | src/drv_oculus_rift_s/rift-s.c:53-65 | found iff an entry has the path; the found entry's use count goes up by one and nothing else changes |
| RiftS.Registry.AddUser | src/drv_oculus_rift_s/rift-s.c:59 | one more user of entry k; nothing else about it changes |
| RiftS.Registry.PushHmd | src/drv_oculus_rift_s/rift-s.c:67-75 | the new entry goes to the front of the list |
| RiftS.Registry.ReleaseHmd | src/drv_oculus_rift_s/rift-s.c:77-106 | a shared HMD loses one user; the last user unlinks the entry and clears its radio queue with failures; an unlisted HMD leaves the list alone; other use counts are unchanged |
| RiftS.Registry.CloseHmd | src/drv_oculus_rift_s/rift-s.c:522-537 | the entry is unlinked and its queued radio commands are failed and dropped |
| RiftS.Registry.OpenDevice | src/drv_oculus_rift_s/rift-s.c:583-619 | a device is returned iff its id is at most 2 and its HMD is listed or opens; a new HMD goes to the front with one user; a listed one gains a user only for a valid id |
| RiftS.Registry.AttachListed | src/drv_oculus_rift_s/rift-s.c:595-618 | a valid id opens that device of the listed HMD; an invalid one releases the added user |
| RiftS.Registry.AttachNew | src/drv_oculus_rift_s/rift-s.c:588-604 | a newly opened HMD is pushed; an invalid id releases it again, leaving the list as it was |
| RiftS.Registry.NewHmd | src/drv_oculus_rift_s/rift-s.c:588-593 | a fresh HMD with one user at the front of the list |
| RiftS.Registry.MarkOpen | src/drv_oculus_rift_s/rift-s.c:606-609 | the device is marked open; use count and radio are unchanged |
| RiftS.Registry.CloseDevice | src/drv_oculus_rift_s/rift-s.c:331-337 | closing marks the device closed and releases one user; the last user unlinks the HMD |
| WmrPacket.Read24 | src/drv_wmr/packet.c:37-42 | three little-endian bytes sign-extended: the 24-bit two's-complement value, in [-2^23, 2^23) |
| WmrPacket.ReadU32 | src/drv_wmr/packet.c:44-49 | the signed 32-bit read stored back into the unsigned timestamp is the plain little-endian word |
| WmrPacket.Wrap32Back | src/drv_wmr/packet.c:44-49 | a 32-bit pattern read as signed and stored as unsigned wraps back to itself |
| WmrPacket.ReadU16 | src/drv_wmr/packet.c:23-28 | a signed 16-bit read stored into the unsigned temperature is the little-endian word |
| WmrPacket.StickX | src/drv_wmr/packet.c:108 | the X stick axis is 12 bits: byte 2 and the low nibble of byte 3 |
| WmrPacket.StickY | src/drv_wmr/packet.c:109 | the Y stick axis is 12 bits: the high nibble of byte 3 and byte 4 |
| WmrPacket.StickRoundTrip | src/drv_wmr/packet.c:105-109 | any two 12-bit axes packed into three bytes read back unchanged |
| WmrPacket.StickLossless | src/drv_wmr/packet.c:105-109 | every three stick bytes are the packing of the axes read from them |
| WmrPacket.DecodeMotionController | src/drv_wmr/packet.c:94-124 | decodes iff the report has exactly 45 bytes, then gives the fields at their offsets, skipping two bytes between accel and gyro |
| WmrPacket.Axes24RoundTrip | src/drv_wmr/packet.c:114-120 | three 24-bit axes encoded in nine bytes read back unchanged |
| WmrPacket.MotionControllerRoundTrip | src/drv_wmr/packet.c:94-124 | every motion controller report that fits its field widths decodes from its own encoding |
| WmrPacket.Stamps | src/drv_wmr/packet.c:51-63 | four 64-bit little-endian timestamps, each below 2^64 |
| WmrPacket.GyroSample | src/drv_wmr/packet.c:78-81 | gyro samples are signed 16-bit |
| WmrPacket.AccelSample | src/drv_wmr/packet.c:84-87 | accelerometer samples are signed 32-bit |
| WmrPacket.DecodeHololens | src/drv_wmr/packet.c:65-92 | decodes iff the report has 497 or 381 bytes, then gives id, temperatures, timestamps and samples at their offsets in read order |
| WmrPacket.ReadStamps | src/drv_wmr/packet.c:76-77 | the cursor loop reads the four timestamps and advances 32 bytes |
| WmrPacket.ReadGyroRow | src/drv_wmr/packet.c:79-80 | the inner loop reads one axis of 32 gyro samples and advances 64 bytes |
| WmrPacket.HololensPrefixOnly | src/drv_wmr/packet.c:65-92 | only the first 345 bytes are read, so the 381- and 497-byte forms decode alike on the same prefix |
| WmrPacket.SameU32 | src/drv_wmr/packet.c:30-35 | equal bytes read as equal words |
| WmrPacket.SameStamps | src/drv_wmr/packet.c:51-63 | equal bytes read as equal timestamps |
| WmrConfig.ChunkOverreadsReply | src/drv_wmr/wmr.c:246-250 | in the 84-byte metadata read, a first chunk claiming 84 bytes passes the guard as written yet exceeds the 30 bytes the reply holds after its length byte |
| WmrConfig.Chunks | src/drv_wmr/wmr.c:237-252 | the data read so far is kept as a prefix and, when it fits, the total never exceeds len; a non-transfer reply or an oversize chunk fails; 2 at byte 1 ends the read |
| WmrConfig.ConfigPart | src/drv_wmr/wmr.c:217-255 | both commands must be acknowledged with 33-byte 0x02 replies; the part read is never longer than len |
| WmrConfig.ChunksLength | src/drv_wmr/wmr.c:250-254 | the offset returned is the sum of the chunk lengths |
| WmrConfig.ReadConfigPart | src/drv_wmr/wmr.c:217-255 | returns -1 exactly when the part cannot be read; otherwise its length, with the part's bytes at the front of the buffer and the rest untouched |
| WmrConfig.CopyChunk | src/drv_wmr/wmr.c:250 | the chunk is copied at the offset; bytes before and after it are unchanged |
| WmrConfig.DecryptCountAsWritten | src/drv_wmr/wmr.c:260 | as written: json_size - 2 computed in unsigned 64-bit arithmetic, below 2^64 |
| WmrConfig.DecryptOverrunsStore | src/drv_wmr/wmr.c:257-264 | an all-zero 84-byte store gives a loop count of 2^64 - 2, far past the store |
| WmrConfig.Decrypted | src/drv_wmr/wmr.c:257-264 | decryption keeps the store's length and only XORs the bytes of the JSON region named by the header |
| WmrConfig.DecryptTwice | src/drv_wmr/wmr.c:262 | XOR with the cyclic key is its own inverse: decrypting twice gives the store back |
| WmrConfig.DecryptConfig | src/drv_wmr/wmr.c:257-264 | the store in place becomes Decrypted of the old store |
| WmrConfig.ReadConfig | src/drv_wmr/wmr.c:266-297 | the result is ConfigStore: metadata read over the stack buffer, store size from its first two bytes, the store part into a zeroed buffer, decrypted; any failed read gives none |
| WmrConfig.ReadMeta | src/drv_wmr/wmr.c:268-281 | fails iff the metadata read fails; the size is the little-endian word at the front of the partly-filled 84-byte buffer |
| WmrConfig.Visit | src/drv_wmr/wmr.c:300-320 | every node the walk collects has the key looked for |
| WmrConfig.VisitMeetsAll | src/drv_wmr/wmr.c:300-320 | the walk meets every node with the key exactly once, by an independent count |
| WmrConfig.Place | src/drv_wmr/wmr.c:309-315 | storing into the first free slot keeps the list's length |
| WmrConfig.PlaceAll | src/drv_wmr/wmr.c:309-315 | storing several nodes keeps the list's length |
| WmrConfig.Packed | src/drv_wmr/wmr.c:322-325 | a list with the nodes in the first slots and the rest free has 32 slots |
| WmrConfig.PlaceAllPacked | src/drv_wmr/wmr.c:309-315 | storing into a packed list packs the first 32 nodes of the whole run, in order; later ones are dropped |
| WmrConfig.PlaceFull | src/drv_wmr/wmr.c:309-315 | a full list is left unchanged |
| WmrConfig.PlaceNext | src/drv_wmr/wmr.c:311-313 | a packed list with room takes the node as its next entry |
| WmrConfig.PlaceAt | src/drv_wmr/wmr.c:311-313 | the node goes to the first free slot and nowhere else |
| WmrConfig.ResetList | src/drv_wmr/wmr.c:322-325 | every slot is empty |
| WmrConfig.Store | src/drv_wmr/wmr.c:309-315 | the array becomes Place of its old contents |
| WmrConfig.ProcessObj | src/drv_wmr/wmr.c:300-320 | the array becomes PlaceAll of its old contents with the nodes in walk order |
| WmrConfig.PlaceAllAppend | src/drv_wmr/wmr.c:318-319 | storing three runs one after another is storing their concatenation |
| WmrConfig.PlaceAllConcat | src/drv_wmr/wmr.c:318-319 | storing two runs one after another is storing their concatenation |
| WmrConfig.WalkFromReset | src/drv_wmr/wmr.c:300-325 | from a reset list the walk leaves the first 32 matching nodes in walk order |
| NoloPacket.SubAdd | src/drv_nolo/packet.c:41-45 | 32-bit subtraction undoes 32-bit addition |
| NoloPacket.E | src/drv_nolo/packet.c:38 | the key selector (sum >> 2) & 3 is below 4 |
| NoloPacket.KeyIndex | src/drv_nolo/packet.c:25 | the key index (p & 3) ^ e is below 4 |
| NoloPacket.Right | src/drv_nolo/packet.c:39-44 | the word after p, cyclically, is a word of the block |
| NoloPacket.Left | src/drv_nolo/packet.c:39-44 | the word before p, cyclically, is a word of the block |
| NoloPacket.DecStep | src/drv_nolo/packet.c:40-44 | one step v[p] -= MX keeps the block's length |
| NoloPacket.DecFrom | src/drv_nolo/packet.c:39-42 | the steps from p down to 1 keep the block's length |
| NoloPacket.DecRound | src/drv_nolo/packet.c:37-45 | one round, words n-1 down to 0, keeps the block's length |
| NoloPacket.DecRounds | src/drv_nolo/packet.c:37-46 | the rounds keep the block's length |
| NoloPacket.RoundCount | src/drv_nolo/packet.c:33 | the do-while runs base_rounds + 52/n times modulo 2^32, at least once and at most 2^32 times |
| NoloPacket.BteaDecrypt | src/drv_nolo/packet.c:27-47 | XXTEA decryption keeps the block's length |
| NoloPacket.EncStep | src/drv_nolo/packet.c:25 | one encryption step v[p] += MX keeps the block's length |
| NoloPacket.EncUpTo | src/drv_nolo/packet.c:25 | the encryption steps for words 0 to k-1 keep the block's length |
| NoloPacket.EncRounds | src/drv_nolo/packet.c:24-25 | the encryption rounds keep the block's length |
| NoloPacket.BteaEncrypt | src/drv_nolo/packet.c:27-47 | the XXTEA encryption that btea_decrypt inverts keeps the block's length |
| NoloPacket.StepInverse | src/drv_nolo/packet.c:41 | a decryption step undoes the encryption step at the same word and sum |
| NoloPacket.RoundPrefixInverse | src/drv_nolo/packet.c:39-42 | the decryption steps from k down undo the encryption steps up to k |
| NoloPacket.RoundInverse | src/drv_nolo/packet.c:37-45 | a decryption round undoes an encryption round with the same sum |
| NoloPacket.SumBefore | src/drv_nolo/packet.c:34-45 | subtracting DELTA from rounds*DELTA mod 2^32 gives (rounds-1)*DELTA mod 2^32 |
| NoloPacket.RoundsInverse | src/drv_nolo/packet.c:33-46 | starting from rounds*DELTA, the decryption rounds undo as many encryption rounds |
| NoloPacket.DecryptInvertsEncrypt | src/drv_nolo/packet.c:27-47 | btea_decrypt recovers every block of two or more words from its encryption |
| NoloPacket.BteaDecryptWords | src/drv_nolo/packet.c:27-47 | the array in place becomes BteaDecrypt of its old contents |
| NoloPacket.DecryptRounds | src/drv_nolo/packet.c:37-46 | the do-while loop applies DecRounds to the array |
| NoloPacket.RoundsStep | src/drv_nolo/packet.c:37-46 | a run of rounds is one round followed by the rest with the sum lowered by DELTA |
| NoloPacket.StartSum | src/drv_nolo/packet.c:33-34 | a round count of 0, which the do-while runs 2^32 times, gives the same starting sum as 2^32 |
| NoloPacket.DecryptRound | src/drv_nolo/packet.c:38-45 | one pass of the round's statements turns the array into DecRound of it |
| NoloPacket.Words | src/drv_nolo/packet.c:56-62 | word i is the little-endian word at byte 4i |
| NoloPacket.WordBytesRoundTrip | src/drv_nolo/packet.c:66-71 | a word written as four bytes reads back as itself |
| NoloPacket.BytesWordRoundTrip | src/drv_nolo/packet.c:56-71 | four bytes read as a word write back as themselves |
| NoloPacket.Unpack | src/drv_nolo/packet.c:66-71 | word i is written to bytes 4i to 4i+3 |
| NoloPacket.UnpackWords | src/drv_nolo/packet.c:56-71 | reading bytes into words and writing them back gives the bytes |
| NoloPacket.WordsUnpack | src/drv_nolo/packet.c:56-71 | writing words to bytes and reading them back gives the words |
| NoloPacket.NoloDecrypt | src/drv_nolo/packet.c:49-72 | the report keeps its length; byte 0 and the bytes after byte 60 are untouched |
| NoloPacket.RepackIdentity | src/drv_nolo/packet.c:56-71 | reading the 15 words and writing them back unchanged leaves the report as it was |
| NoloPacket.NoloRoundTrip | src/drv_nolo/packet.c:49-72 | nolo_decrypt_data recovers every report from its encryption under the fixed key |
| NoloPacket.NoloDecryptData | src/drv_nolo/packet.c:49-72 | the buffer in place becomes NoloDecrypt of its old contents |
| NoloPacket.ReadWords | src/drv_nolo/packet.c:56-62 | the word array holds the 15 words of bytes 1 to 60 |
| NoloPacket.WriteWords | src/drv_nolo/packet.c:66-71 | bytes 1 to 60 take the words, and the rest of the buffer is unchanged |
| NoloPacket.I16Be | src/drv_nolo/packet.c:78 | a big-endian signed 16-bit value |
| NoloPacket.DecodePosition | src/drv_nolo/packet.c:74-81 | x and y are the signed and z the unsigned big-endian words at 0, 2 and 4 |
| NoloPacket.PositionRoundTrip | src/drv_nolo/packet.c:74-81 | every in-range position decodes from its big-endian bytes |
| NoloPacket.PositionLossless | src/drv_nolo/packet.c:74-81 | every six bytes re-encode from the position they decode to |
| NoloPacket.BeI16Lossless | src/drv_nolo/packet.c:78-79 | a signed big-endian word re-encodes to its two bytes |
| NoloPacket.DecodeOrientation | src/drv_nolo/packet.c:83-108 | w and x from the first two words; y from the fourth; z the negated third |
| NoloPacket.BeI16RoundTrip | src/drv_nolo/packet.c:78 | a signed 16-bit value written big-endian reads back as itself |
| NoloPacket.OrientationRoundTrip | src/drv_nolo/packet.c:83-108 | every orientation in range decodes from its own encoding, undoing the reorder |
| NoloPacket.DecodeController | src/drv_nolo/packet.c:110-131 | decoded iff version bytes 2 and 1; buttons from byte 17 and position z from bytes 7-8 |
| NoloPacket.Hmd.constructor | src/drv_nolo/packet.c:133-157 | zero position and rotation |
| NoloPacket.Hmd.DecodeHmdMarker | src/drv_nolo/packet.c:133-157 | a bad version leaves the pose alone; otherwise position from byte 3 and rotation from byte 16 |
| FileFormat.ControlCount | src/drv_file/drv_file_fmt.h:42-46 | the control count is a 32-bit word |
| FileFormat.RotationAt | src/drv_file/drv_file_fmt.h:48-54 | the rotation is the quaternion flag and four float words, in file order |
| FileReader.Body | src/drv_file/file_reader.c:29 | the body is the 1124 bytes after the header |
| FileReader.ReadStatus | src/drv_file/file_reader.c:22-39 | 0 iff the header, version 0, a whole body and at most 64 controls are there; 1 iff the header is missing; the other codes in the order the source checks |
| FileReader.Accepted | src/drv_file/file_reader.c:29-37 | an accepted body is the file's body with only the last name byte forced to 0 |
| FileReader.AcceptedUnchanged | src/drv_file/file_reader.c:37 | a body whose name is already terminated is taken over unchanged |
| FileReader.ReadItem | src/drv_file/file_reader.c:26-30 | fread of one item succeeds iff the source holds enough bytes; the bytes read are the source's prefix |
| FileReader.ReadFile | src/drv_file/file_reader.c:22-39 | the status is ReadStatus of the file; no header or a bad version leaves the output zeroed; too many controls leaves the raw body; success leaves the accepted body |
| FileReader.Rotation2Quat | src/drv_file/file_reader.c:59-67 | a quaternion rotation yields its four words as x, y, z, w; an Euler rotation is converted from pitch, yaw and roll alone, the fourth word ignored |
| FileReader.QuaternionPassthrough | src/drv_file/file_reader.c:59-67 | a rotation marked as quaternion yields the four float words of the file unchanged, in order |
| FileDevSet.Repeat | examples/file_dev/set.py:20 | n copies of a pattern are n times its length |
| FileDevSet.RepeatZeros | examples/file_dev/set.py:20 | n copies of k zero bytes are n*k zero bytes |
| FileDevSet.Record | examples/file_dev/set.py:10-20 | the record the script writes is header plus the 1124-byte body |
| FileDevSet.RecordIdentity | examples/file_dev/set.py:10-14 | the record opens with version 0, class 0, flags 2 or-ed with 4 (6), and the name set.py null-padded to 256 bytes |
| FileDevSet.RecordPose | examples/file_dev/set.py:15-16 | the rotation is Euler (flag 0) holding the three angle arguments, then the three position arguments |
| FileDevSet.RecordControls | examples/file_dev/set.py:17-20 | a 1280x800 display, a control count of 0 and 64 zero controls |
| FileDevSet.SetFile | examples/file_dev/set.py:25-32 | the file after the script starts with the record and is never shorter than it was ("x+b" or "r+b", no truncation) |
| FileDevSet.SetFileOverwrites | examples/file_dev/set.py:25-32 | the record is written at offset 0; a new file is exactly the record; an old file keeps whatever lies beyond it |
| FileDevSet.ReaderAcceptsRecord | examples/file_dev/set.py:10-32 | whatever the file held before, the driver's reader accepts what the script writes and takes over the body unchanged |
| VivePacket.I16 | src/drv_htc_vive/packet.c:17-22 | a signed 16-bit little-endian field |
| VivePacket.AxesAt | src/drv_htc_vive/packet.c:42-49 | three axes are read |
| VivePacket.PacketAt | src/drv_htc_vive/packet.c:38-53 | a packet holds three samples |
| VivePacket.DecodeSensorPacket | src/drv_htc_vive/packet.c:31-56 | decodes iff the report has exactly 52 bytes, then gives the report id and three 17-byte samples in cursor order |
| VivePacket.ReadAxes | src/drv_htc_vive/packet.c:42-49 | the cursor loop reads the three axes and advances 6 bytes |
| VivePacket.AxesRoundTrip | src/drv_htc_vive/packet.c:42-49 | three signed 16-bit axes written read back unchanged |
| VivePacket.SampleRoundTrip | src/drv_htc_vive/packet.c:40-53 | every sample in range decodes from its own 17 bytes |
| VivePacket.SampleShift | src/drv_htc_vive/packet.c:40-53 | a sample decodes alike in place and cut out of the report |
| VivePacket.PacketRoundTrip | src/drv_htc_vive/packet.c:31-56 | every packet in range decodes from its own 52-byte encoding |
| VivePacket.Kept | src/drv_htc_vive/packet.c:68-69 | only non-blank characters are kept, never more than given |
| VivePacket.KeptAppend | src/drv_htc_vive/packet.c:66-71 | filtering a concatenation is concatenating the filtered parts |
| VivePacket.KeptNoBlanks | src/drv_htc_vive/packet.c:68 | a string without blanks is kept whole |
| VivePacket.KeptTwice | src/drv_htc_vive/packet.c:66-71 | trimming is idempotent |
| VivePacket.CString | src/drv_htc_vive/packet.c:66 | the string up to its first NUL |
| VivePacket.Trimmed | src/drv_htc_vive/packet.c:59-73 | the result is the longest prefix of the kept characters that fits sizeBuff - 1, and all of them when fewer fit |
| VivePacket.KeptStep | src/drv_htc_vive/packet.c:66-71 | one more character adds itself unless it is blank |
| VivePacket.Trim | src/drv_htc_vive/packet.c:59-73 | a zero size leaves the buffer alone; otherwise it holds Trimmed then a NUL, the rest unchanged |
| VivePacket.TrimCopy | src/drv_htc_vive/packet.c:64-71 | the loop stops at the NUL or with sizeBuff - 1 characters kept, the buffer prefix is the kept characters read so far, and the rest of the buffer is unchanged |
| VivePacket.TrimmedAt | src/drv_htc_vive/packet.c:66 | where the loop stops, on NUL or a full buffer, it has produced Trimmed |
| VrTek.SkuNames | src/drv_vrtek/vrtek.c:299-319 | WVR1, WVR2 and WVR3 iff the first four characters say so; another fourth character after WVR is an unknown WVR; anything else is unknown |
| VrTek.Priv.constructor | src/drv_vrtek/vrtek.c:435 | the private state starts zeroed: SKU VRTEK_SKU_WVR_UNKNOWN (the enum's 0), an all-zero model string, version 0 and a zero display |
| VrTek.Priv.UpdateHmdModel | src/drv_vrtek/vrtek.c:285-319 | a response shorter than 12 only marks the SKU unknown; otherwise the first 12 characters, terminated, are the model string and name the SKU |
| VrTek.Priv.UpdateSoftwareVersion | src/drv_vrtek/vrtek.c:245-263 | a response of 24 bytes or more sets the version to the big-endian word at byte 20; a shorter one changes nothing |
| VrTek.Priv.UpdateDisplayProperties | src/drv_vrtek/vrtek.c:189-243 | the display becomes DisplayFor of the type byte; nothing else changes |
| VrTek.DisplayKnown | src/drv_vrtek/vrtek.c:189-243 | unknown iff the byte is neither 4 nor 5; a known type names its own resolution, and applying it again changes nothing |
| VrTek.SoftwareVersionRoundTrip | src/drv_vrtek/vrtek.c:249-263 | a version written big-endian at byte 20 reads back unchanged |
| Bytes.U16 | src/drv_oculus_rift/packet.c:15 | READ16: the low byte then the high byte of a 16-bit value |
| Bytes.U32 | src/drv_oculus_rift/packet.c:16 | READ32: two little-endian 16-bit halves, low half first |
| Bytes.U64 | src/drv_wmr/packet.c:51-63 | read64: two little-endian 32-bit halves, low half first |
| Bytes.U32Be | src/drv_vrtek/vrtek.c:259-260 | a big-endian 32-bit value: the first two bytes are the high half |
| Bytes.BigEndianIsReversedLittle | src/drv_vrtek/vrtek.c:259-260 | a big-endian field is the little-endian reading of its bytes reversed |
| Bytes.ToInt16 | src/drv_nolo/packet.c:78 | the cast to int16_t: the value in [-2^15, 2^15) congruent to its argument modulo 2^16 |
| Bytes.ToInt32 | src/drv_wmr/packet.c:30-35 | the cast to int32_t: the value in [-2^31, 2^31) congruent modulo 2^32 |
| Bytes.Le16 | src/drv_oculus_rift/packet.c:21 | WRITE16: two bytes that READ16 reads back as the value |
| Bytes.Le32 | src/drv_oculus_rift/packet.c:22 | WRITE32: four bytes that READ32 reads back as the value |
| Bytes.Wrap16 | src/drv_nolo/packet.c:78 | the int16_t cast undoes the wrap of any signed 16-bit value |
| Bytes.Wrap32 | src/drv_wmr/packet.c:30-35 | the int32_t cast undoes the wrap of any signed 32-bit value |
| Cursor.Put8 | src/drv_oculus_rift/packet.c:20 | WRITE8 stores the low byte at the cursor and advances one; the bytes after it are unchanged |
| Cursor.Put16 | src/drv_oculus_rift/packet.c:21 | WRITE16 stores the two little-endian bytes and advances two |
| Cursor.PutBytes | src/drv_nreal/air.c:423 | a memcpy into the report at the cursor: those bytes follow what was there, the rest is unchanged |

## Left out

- Floating-point numerics are not modelled. This covers:
  - sensor fusion and the quaternion, vector and perspective maths;
  - the accelerometer and gyroscope scale factors of every driver;
  - NOLO position and orientation scaling;
  - the VR-Tek float display properties (sizes, lens separation, field of view).

  Floats that are only moved are kept as bit patterns. The Nreal brightness
  conversions are integer functions that agree with the float expressions on every
  byte.
- OhmdQueue.Queue.constructor: the buffer size `elem_size * max` is computed in unsigned
  32-bit arithmetic by the source and could wrap; the model takes the product as not
  wrapping, so a queue whose product reaches 2^32 is not modelled.
- NxJson.ParseNumber: the double value `strtod` computes is not modelled. Whether it
  is representable is the `fits` parameter, and whether `errno` already holds `ERANGE`
  when parsing starts is the `staleRange` parameter.
- HID, USB and file I/O are not modelled as calls. Replies read from a device are
  sequence parameters, writes are recorded in a log field, and a send's success is a
  parameter.
- Threads and mutexes are not modelled: the `src/queue.c` locks and the Nreal Air read
  thread. Every operation is taken to run alone.
- Allocation failure of `calloc`/`ohmd_alloc` is not modelled. Every allocation is
  taken to succeed.
- Vive config decompression (miniz) is not part of this model.
- The contents of the Rift S controller configuration and calibration JSON callbacks
  are not modelled. Only the radio exchanges that deliver those blocks are.
- RiftSRadio.Radio: the doubly linked pending-command queue is a sequence field.
  Head and tail linkage and node aliasing are not captured, but order and contents are.
- RiftS.Registry: the global linked list of HMDs is a sequence of entries. Prepending
  and unlinking keep the order of the list, but node identity is not modelled.
- The Rift S device list that `update_device_types` reads from the radio is a single
  parameter.
- The WMR config key of `config_key.h` is not part of this model. It is a parameter
  of the decryption.
- WmrConfig.ReadConfig: the metadata part may deliver fewer than the 84 bytes of the
  stack buffer; the bytes it leaves uninitialised, which `read_config` still reads
  (the size word among them when fewer than 2 arrive), are a `stack` parameter. A reply sequence that
  runs out ends the exchange with -1.
- WMR JSON nodes are values, and the walk collects them in visit order rather than as
  pointers.
- NOLO base-station decoding has no effect beyond its version guard, because the
  source decodes nothing there. The controller decoder's result is discarded by the
  source, so it is modelled as a function.
- NoloPacket.DecryptInvertsEncrypt is stated for blocks of two or more words, because
  XXTEA is defined for those. The driver always uses fifteen.
- FileReader.ReadFile: after a short body (status 2), the contents of the output are
  left unspecified, because the source leaves whatever `fread` stored.
- FileReader.Rotation2Quat: the Euler-to-quaternion conversion is floating point, so
  it is a function parameter.
- FileDevSet.Record: the six arguments are taken as 32-bit float bit patterns.
  Native struct packing is taken as little-endian. A failure to open the file with
  "r+b" is not modelled.
- VivePacket.Trim requires a NUL in the source buffer. The driver's in-place call on
  the decompressed config may lack one, and that case is not modelled.
- OMath.Transpose requires distinct input and output matrices. The in-place
  (aliased) call is not modelled.
- NrealCrc: the CRC table entries are defined bitwise. Only entries 0x00 and 0x04,
  0x08, 0x10, 0x20, 0x40, 0x80 are checked against the literal table.

## Findings

| source | as written | input that shows it | evidently intended | confidence | as-written member | corrected member |
|---|---|---|---|---|---|---|
| src/drv_nreal/air.c:482-503 | the result of `na_parse_sensor_control_data_packet` is ignored; a report that fails to parse is dispatched on whatever the uninitialised stack struct `data` holds | a one-byte report `0xAA` | a report that fails to parse is dropped | not executed | NrealAir.ShortReportDispatchesStale | NrealAir.NaHmd.HandleSensorControlDataMsg |
| src/drv_nreal/air.c:766-778 | the result of `na_parse_control_packet` is ignored; a short report is acted on with whatever the uninitialised stack struct `control` holds | a two-byte report | a report that fails to parse is dropped | not executed | NrealAir.ShortReportActsOnStale | NrealAir.NaHmd.HandleControlMsg |
| src/drv_nreal/air.c:170-176 | `unscale_brightness` truncates 7*s/100, and `adjust_brightness` (modelled as written) uses it | the percentage reported for any level 1..6, e.g. level 3 (42%) unscales to 2 | unscaling a scaled level gives that level back | not executed | NrealAir.UnscaleLosesLevel | NrealAir.BrightnessRoundTrip |
| src/drv_oculus_rift_s/rift-s-protocol.c:127-131 | the leftover `avail` bytes are copied into the 48-byte `extra_bytes` without a bound | a 64-byte report with id 0x67, data_len 54, and an unknown first block id: avail is 50 | at most 48 bytes are copied, otherwise the report is refused | not executed | RiftSProtocol.LeftoverOverflows | RiftSProtocol.ParseControllerReport |
| src/drv_oculus_rift_s/rift-s-radio.c:254-256 | the failure path reports the `success` flag to the client | a 3-byte reply | the client is told the read failed | not executed | RiftSRadio.ShortReplyReportsSuccess | RiftSRadio.ReadJson |
| src/drv_oculus_rift_s/rift-s-radio.c:218-224 | the copy length comes from the reply's length byte, bounded only by the bytes still wanted | a length byte of 255 with 4096 bytes outstanding: 255 bytes are copied from a reply carrying 192 | the copy is bounded by the bytes the reply carries | not executed | RiftSRadio.CopyOverreadsResponse | RiftSRadio.ReadJson |
| src/drv_wmr/wmr.c:246-250 | a chunk is checked against the space left in the destination only | an 84-byte metadata read whose first reply claims 84 bytes, from a 33-byte reply buffer | the chunk also fits in the reply | not executed | WmrConfig.ChunkOverreadsReply | WmrConfig.ReadConfigPart |
| src/drv_wmr/wmr.c:260 | `json_size - sizeof(uint16_t)` in unsigned 64-bit arithmetic, with no check against the store size | an all-zero 84-byte store: json_size 0 gives 2^64 - 2 iterations | only a JSON region inside the store is decrypted | not executed | WmrConfig.DecryptOverrunsStore | WmrConfig.DecryptConfig |
