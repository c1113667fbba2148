# BootBuffer in Dafny

A model of the BootBuffer codec (`src/BootBuffer.ts`). The codec is a flat key/value record format. Each record is laid out as

    varint(tag) | varint(keyLength) | varint(valueLength) | key | value

Records follow one another with no count and no terminator. The model has these parts:

- **Varint** (`varint.dfy`): unsigned LEB128, as in section 7.6 of the DWARF Debugging Information Format (versions 4 and 5). This is what the `varint` package supplies to the source.
- **Values** (`values.dfy`, `ieee754.dfy`, `binary.dfy`):
  - the ten wire tags of `ValueType`;
  - `parseValue`, which turns a record's value bytes into a value;
  - the little-endian integer forms;
  - the binary64 bit pattern of the large integers the writer stores as doubles.
- **Encoder** (`encoder.dfy`):
  - `addEntry` picks a tag and lays out one record. The caller states the kind of value with a closed `Input` datatype instead of `typeof` probing.
  - `add` and `buffer` accumulate records.
- **Decoder** (`decoder.dfy`): `readSync` as an explicit state machine that keeps four rules:
  1. the `carry` holds exactly the unread tail of its input, at most 4096 bytes (`kTmpBufferSize`), and a field that needs more is an error;
  2. a key is not marked read until all of it is copied;
  3. the value cursor advances by the bytes actually copied;
  4. a stream that ends inside a record is reported as truncated.

  The model:
  - A `Phase` says which field of the current record is awaited.
  - The pure function `Feed(state, chunk)` returns the entries yielded and the next state, or an error.
  - `ReadSync(chunks)` feeds every chunk. It reports `Truncated` when the source ends inside a record.
- **DecoderAsWritten** (`decoder_as_written.dfy`): `readSync` transcribed literally. This includes the `ReadState` flags, the scratch buffer and its used count, and a cursor that can run past the chunk. It also models Node's `Buffer.fill`, which repeats its source. This module exhibits the places where the code breaks the four rules above (see "## Findings"). It also proves that on a whole buffer whose last value is nonempty the code reads what `Decoder` reads.
- **RoundTrip** (`roundtrip.dfy`): the theorems that connect writer and reader.
  - The records `add` writes are read back in order, with their tags, keys and values.
  - This holds when the buffer arrives in one piece, and for any way of cutting it into chunks, provided every field fits the scratch buffer.
  - A stream cut inside a record is reported as truncated.
- **Scenario** (`scenario.dfy`): the session of `src/tests/BootBuffer.test.ts` without its two fractional numbers. It proves what the test expects of the collected result.

## Deviations from the code

`Decoder` models a reader that keeps the four rules above, not the code as written. The code as written has six faults, listed under "## Findings". Each is modelled literally in `DecoderAsWritten`, next to a lemma about the intended reader.

The writer follows the code exactly, including the one-byte ceiling of 16 (`kUInt8MaxValue`) rather than 255.

## Model

| member | source | states |
|---|---|---|
| Varint.Encode | src/BootBuffer.ts:451-453 | The encoding is nonempty and its last byte lacks the continuation bit. DecodeEncode shows it decodes back to n. |
| Varint.Decode | src/BootBuffer.ts:242-247 | The varint at the head of a buffer is incomplete exactly when every byte has the continuation bit. Otherwise it ends at the first byte without that bit, and the size reports how many bytes it took. |
| Varint.DecodeEncode | src/BootBuffer.ts:451-453 | Decoding the encoding of n, followed by any bytes, gives n and consumes exactly the encoding. Every proper prefix of the encoding is incomplete. |
| Varint.DecodeExtend | src/BootBuffer.ts:243-244 | Bytes appended after a complete varint do not change what is decoded or how many bytes it takes. |
| Varint.EncodeContinues | src/BootBuffer.ts:451-453 | Every byte of an encoding except the last carries the continuation bit. |
| Varint.EncodeLength | src/BootBuffer.ts:451-453 | A number below 2^(7k) encodes in at most k bytes. |
| Binary.LittleEndian | src/BootBuffer.ts:399-411 | The width-byte little-endian form of n has that width and reads back as n. |
| Values.TypeOf | src/BootBuffer.ts:21-32 | Ordinals 0 to 9 name a tag whose ordinal is that number. Every other ordinal names none. |
| Values.TypeOfCode | src/BootBuffer.ts:21-32 | Every tag survives the trip to its ordinal and back. |
| Values.ParseValue | src/BootBuffer.ts:338-368 | Parsing fails exactly when the value bytes are shorter than what the tag's fixed-width reader needs, and then it reports the tag and the length. |
| Values.ParseTyped | src/BootBuffer.ts:340-366 | The per-tag readers, given at least the bytes they need. The property is carried by ParseValue and Encoder.ValueReadsBack. |
| Values.ParseFloatExact | src/BootBuffer.ts:355-362 | A float or double is read as the integer n exactly when its bit pattern is finite and denotes n. Every other pattern, whether fractional, infinite or NaN, is kept as its bits. |
| Ieee754.IntegralValue | src/BootBuffer.ts:355-362 | `readFloatLE` / `readDoubleLE` followed by the test `value % 1 === 0`. The property is carried by IntegralValueExact. |
| Ieee754.IntegralValueExact | src/BootBuffer.ts:355-362 | The integrality test gives n exactly when the binary32 or binary64 pattern is finite and the number it denotes, sign times significand times a power of two, equals n. The comparison is exact, in integers. |
| Ieee754.DoubleBitsExact | src/BootBuffer.ts:392-398 | The binary64 pattern written for an integer in [2^32, 2^53) reads back as exactly that integer. |
| Encoder.EncodeNumber | src/BootBuffer.ts:391-411 | A negative integer is rejected. Otherwise the width ladder holds: up to 16 gives uint8 with 1 byte, up to 65535 gives uint16 with 2 bytes, up to 4294967295 gives uint32 with 4 bytes, and larger gives double with 8 bytes. |
| Encoder.NumberReadsBack | src/BootBuffer.ts:349-361 | Whatever width the ladder picks, parsing the bytes under that tag gives the number back. |
| Encoder.UIntRoundTrip | src/BootBuffer.ts:349-354 | An unsigned integer written little-endian at the width of uint8, uint16 or uint32 reads back as itself. |
| Encoder.BigIntRoundTrip | src/BootBuffer.ts:347-348 | A bigint below 2^64, written as eight little-endian bytes, reads back as itself. |
| Encoder.EncodeValue | src/BootBuffer.ts:374-446 | A defined value is rejected exactly when the code throws on it: a negative number, a bigint outside [0, 2^64), or a structure `JSON.stringify` cannot render. An accepted value has at least the bytes its tag's reader needs. |
| Encoder.ValueReadsBack | src/BootBuffer.ts:338-368 | Every accepted value, parsed under the tag the writer chose, is read back as the value the reader should return for it. |
| Encoder.AddEntry | src/BootBuffer.ts:370-457 | An undefined value writes no bytes. A defined value fails exactly when it is rejected, and otherwise writes one record of its tag, key and value bytes. |
| Encoder.Add | src/BootBuffer.ts:469-474 | `add` fails exactly when `addEntry` throws. On success the old buffer is a prefix of the new one, and an undefined value leaves the writer unchanged. |
| Decoder.Run | src/BootBuffer.ts:230-333 | The loop over one input. Its properties are carried by RunStops (where the loop stops, and what it carries) and RunAppend (running on x + y is running on x, then on y). |
| Decoder.RunStops | src/BootBuffer.ts:230-239 | When a chunk's loop stops for want of input, it waits in a proper state. The carry is exactly an unread tail of its input and fits the scratch buffer. A carry that overflows was longer than 4096 bytes. |
| Decoder.Feed | src/BootBuffer.ts:223-239 | After a chunk, the reader holds at most 4096 carried bytes, and those bytes are the unread tail of the previous carry followed by the chunk. |
| Decoder.WaitingIsStable | src/BootBuffer.ts:230 | An empty chunk yields nothing and leaves a waiting reader as it was. |
| Decoder.RunAppend | src/BootBuffer.ts:241-333 | Running the loop on x + y is running it on x, then continuing with y from where x left the reader. |
| Decoder.FeedAppend | src/BootBuffer.ts:223-228 | Feeding a + b as one chunk is feeding a, then b, unless a alone overflowed the carry. |
| Decoder.FeedAllFlatten | src/BootBuffer.ts:223-335 | Feeding a nonempty sequence of chunks gives the same entries and final state as feeding their concatenation as one chunk, unless the carry overflows. |
| Decoder.FeedAllNoOverflow | src/BootBuffer.ts:234-238 | Feeding the chunks never overflows the carry when no prefix of their concatenation, fed in one piece, overflows it. |
| Decoder.ReadSyncChunkInvariant | src/BootBuffer.ts:209-336 | `readSync` of any chunked source equals `readSync` of the whole buffer at once, unless the carry overflows. |
| Decoder.ReadSync | src/BootBuffer.ts:209-336 | The whole reader. Its properties are carried by ReadSyncChunkInvariant, RoundTrip.ReadWhole, RoundTrip.ReadChunked and RoundTrip.ReadTruncated. |
| RoundTrip.DecodeRecord | src/BootBuffer.ts:241-333 | One record followed by any bytes yields that record's entry, followed by whatever the rest yields. |
| RoundTrip.DecodeRecords | src/BootBuffer.ts:241-333 | Records written one after another yield their entries in order, followed by whatever the rest yields. |
| RoundTrip.ReadWhole | src/BootBuffer.ts:209-336 | `readSync` of the encoding of readable records, as one buffer, yields every record's entry in order and ends without error. |
| RoundTrip.RecordPrefix | src/BootBuffer.ts:234-238 | A nonempty proper prefix of a record whose fields fit the scratch buffer yields nothing, and the reader waits for the rest. |
| RoundTrip.RecordsPrefix | src/BootBuffer.ts:234-238 | No prefix of a stream of such records makes the reader fail. |
| RoundTrip.ReadChunked | src/BootBuffer.ts:223-335 | However the encoding of such records is cut into chunks, `readSync` yields every entry in order and ends without error. |
| RoundTrip.EmptyKeyAndValue | src/BootBuffer.ts:280-306 | A record with an empty key and an empty value yields its entry, with the empty key and the value its tag makes of no bytes. |
| RoundTrip.ReadTruncated | src/BootBuffer.ts:334-335 | A stream that stops inside a record yields the records before it, then reports truncation. |
| RoundTrip.AddAllWrites | src/BootBuffer.ts:469-474 | A session of `add` calls succeeds exactly when no value is rejected. The buffer then ends with the records of the defined values, in order. |
| RoundTrip.WriteThenRead | src/BootBuffer.ts:370-457 | The buffer of a successful session, read in one piece, yields each defined value under its key and tag, in the order written. |
| RoundTrip.WriteThenReadChunked | src/BootBuffer.ts:370-457 | The same holds for any chunking of the buffer, when every key and value-length prefix fits the scratch buffer. |
| Scenario.SessionWrites | src/tests/BootBuffer.test.ts:11-20 | Every value of the test session is accepted, and the reader's entries are the expected ones. |
| Scenario.CollectTestEntries | src/tests/BootBuffer.test.ts:24-34 | Collecting those entries by key, with later keys overwriting earlier ones, gives the values the test expects. |
| Scenario.TestFile | src/tests/BootBuffer.test.ts:11-34 | The test's session writes without throwing, reads back to the end without error, and collects to the expected object. |
| Scenario.TestFileAsWritten | src/tests/BootBuffer.test.ts:11-34 | The same expectations hold of `readSync` as written: its loop reads the test's buffer to the end, leaves a fresh state, and the entries collect to the expected object. |
| DecoderAsWritten.Fill | src/BootBuffer.ts:312-315 | `Buffer.fill` with a nonempty source keeps the bytes before the offset and repeats the source to the end of the target. |
| DecoderAsWritten.Fallback | src/BootBuffer.ts:234-239 | The literal `fallback` yields nothing, and it leaves at most 4096 scratch bytes in use or throws. |
| DecoderAsWritten.LoopBody | src/BootBuffer.ts:241-333 | One turn of the loop, branch for branch. Its behaviour on whole fields is carried by TypeStep, KeyLengthStep, ValueLengthStep, KeyStep and ValueStep. |
| DecoderAsWritten.Loop | src/BootBuffer.ts:230-334 | The `while` loop over one chunk. Its behaviour on whole records is carried by RecordStep and LoopRecords. |
| DecoderAsWritten.ReadSyncAsWritten | src/BootBuffer.ts:209-336 | The literal reader. It is connected to `Decoder` by OneChunk, TwoChunks and WholeBufferAsWritten. |
| DecoderAsWritten.TypeStep | src/BootBuffer.ts:241-249 | A tag present in full under the cursor is read in one turn, and the loop goes on just past it. |
| DecoderAsWritten.KeyLengthStep | src/BootBuffer.ts:251-262 | A whole key length is read in one turn. The key buffer of that length is allocated, and the loop goes on just past the length. |
| DecoderAsWritten.ValueLengthStep | src/BootBuffer.ts:264-277 | A whole value length is read in one turn. The value buffer is allocated, and the loop goes on just past the length. |
| DecoderAsWritten.KeyStep | src/BootBuffer.ts:279-293 | A key present in full is copied in one turn, and the cursor moves past it. An empty key is marked read in place. |
| DecoderAsWritten.ValueStep | src/BootBuffer.ts:296-331 | A value present in full is copied, its entry is yielded with the record's tag and key, and the loop goes on from a fresh state just past it. |
| DecoderAsWritten.RecordStep | src/BootBuffer.ts:241-331 | A whole record under the cursor yields its entry, and the loop goes on from a fresh state just past it. When its value is empty, at least one more byte must follow. |
| DecoderAsWritten.LoopRecords | src/BootBuffer.ts:230-334 | The loop over the encoding of readable records, the last with a nonempty value, yields every record's entry in order and ends in a fresh state. |
| DecoderAsWritten.WholeBufferAsWritten | src/BootBuffer.ts:209-336 | One chunk holding such records is read as written exactly as the intended reader reads it: the same entries, no error, and a fresh state. |
| DecoderAsWritten.WriteThenReadAsWritten | src/BootBuffer.ts:209-336 | The buffer of a successful session whose last record has a nonempty value, read in one piece as written, yields each defined value under its key and tag, in order. |
| DecoderAsWritten.OneChunk | src/BootBuffer.ts:223-229 | A source of one chunk is one pass of the loop over it, from a fresh state. |
| DecoderAsWritten.TwoChunks | src/BootBuffer.ts:223-229 | A second chunk continues from the state and scratch buffer that the first one left. |
| DecoderAsWritten.CarryAsWritten | src/BootBuffer.ts:236-237 | A short unfinished varint is carried as 4096 bytes, with the field repeated, where the intended reader carries the field alone. |
| DecoderAsWritten.KeyFlagAsWritten | src/BootBuffer.ts:288-291 | For a key cut short by the chunk, the key is marked read although none of it was copied. |
| DecoderAsWritten.KeyCarryAsWritten | src/BootBuffer.ts:223-228 | After a key cut short by the chunk, the next chunk never reaches the key. The value is read from the head of the 4096 carried bytes, so the first entry has the key's unwritten bytes and the value `[0x61]`. |
| DecoderAsWritten.KeyFlagFallback | src/BootBuffer.ts:283-293 | The key branch after a fallback sets the key flag and changes nothing else in the record state. |
| DecoderAsWritten.ValueCursorAsWritten | src/BootBuffer.ts:312-318 | When the buffer holding the value's start is at least as long as the value, a value split across two chunks is completed from that buffer alone. Here the value is its first byte repeated. |
| DecoderAsWritten.ShortValueAsWritten | src/BootBuffer.ts:312-318 | When the buffer is at least as long as the value, a stream that ends inside the value yields it padded by repeating the bytes at hand, and ends quietly. |
| DecoderAsWritten.LongValueAsWritten | src/BootBuffer.ts:312-318 | When the value is longer than the buffer holding its start, nothing is yielded. The value's used count grows by the whole buffer though the buffer held one byte of the value, and a stream that ends there ends quietly. |
| DecoderAsWritten.EmptyLastValueAsWritten | src/BootBuffer.ts:297-306 | A final record with an empty value is never yielded. |
| DecoderAsWritten.TruncationAsWritten | src/BootBuffer.ts:334-335 | A stream that stops after a tag ends with no entry and no error, in an unfinished record state. |
| DecoderAsWritten.WholeRecordIntended | src/BootBuffer.ts:241-333 | The intended reader yields a small record's entry and ends cleanly, however its bytes are chunked. |
| DecoderAsWritten.CutRecordIntended | src/BootBuffer.ts:334-335 | The intended reader reports any nonempty proper prefix of a small record as truncated. |
| DecoderAsWritten.SplitKeyIntended | src/BootBuffer.ts:283-293 | The intended reader joins a key split across chunks. |
| DecoderAsWritten.SplitValueIntended | src/BootBuffer.ts:307-332 | The intended reader joins a value split across chunks. |
| DecoderAsWritten.ShortValueIntended | src/BootBuffer.ts:307-332 | The intended reader reports a record cut inside its value as truncated. |
| DecoderAsWritten.EmptyLastValueIntended | src/BootBuffer.ts:297-306 | The intended reader yields a final record with an empty value. |
| DecoderAsWritten.TruncationIntended | src/BootBuffer.ts:334-335 | The intended reader reports a stream that stops after a tag as truncated. |

## Left out

- Fractional numbers are not modelled. This covers the float/double choice by range and decimal-digit count, `writeFloatLE` / `writeDoubleLE` of non-integers, and the `toFixed` normalisation on reading (src/BootBuffer.ts:355-362, 412-433). These are floating-point numerics. A non-integral float read back is kept as its bit pattern (`InexactNumber`). For the same reason, the test's two fractional numbers are left out of the scenario.
- Encoder.EncodeNumber: takes only safe integers, |n| <= 2^53 - 1. Integral numbers beyond that are not modelled, because they need binary64 rounding. NaN fails the test `Number(value) === value` (src/BootBuffer.ts:390) and reaches the JSON branch (src/BootBuffer.ts:436-444), where `JSON.stringify` renders it as `null` under tag 9. In the model that is the input `Structured(Some("null"))`. The infinities fail `value % 1 === 0` and take the fractional path (src/BootBuffer.ts:414-428), which is left out above.
- JSON is not modelled. `JSON.stringify` is an input, the text or its failure. `JSON.parse` on reading is left out, and tag 9 yields its text.
- UTF-8 conversion of keys and strings (`Buffer.from`, `toString`) is a library call. Keys and text are their bytes.
- The async `read` (src/BootBuffer.ts:80-207) is left out. It repeats `readSync` line for line and differs only in `for await` scheduling. The one-buffer iterator adapters (src/BootBuffer.ts:67-77) are left out too: a single buffer is a source of one chunk.
- The `varint` package's own limits are not modelled. It refuses varints wider than its safe range; here varints are unbounded.
- `Buffer.allocUnsafe` returns memory with unspecified contents. In `DecoderAsWritten` it is zeros.
- DecoderAsWritten.Loop: a pass that turns in place without consuming input ends in `Spinning`. These states cannot be reached from `new ReadState()`.
- Values.ParseFloatExact: a float or double holding negative zero reads as `NumberValue(0)`. `readFloatLE` / `readDoubleLE` (src/BootBuffer.ts:355-362) return -0, which passes `% 1 === 0`. The model's integers have no signed zero, so the distinction between -0 and 0 is not kept.
- Decoder.ReadSyncChunkInvariant: holds only for streams whose carry never overflows 4096 bytes. An unfinished varint or key longer than that is an error, and where that error occurs depends on the chunking.
- RoundTrip.WriteThenReadChunked: requires every key and every value-length prefix to fit the 4096-byte scratch buffer, for the same reason.

## Findings

| source | as written | input that shows it | evidently intended | confidence | as-written member | corrected member |
|---|---|---|---|---|---|---|
| src/BootBuffer.ts:236-237 | `fallback` advances the cursor by the scratch buffer's free space and grows the used count by `Math.max(rest, free)`. A short unfinished field is therefore carried as a full 4096 bytes, made of the field repeated by `fill`. | one chunk `[0x81]` | carry exactly the unread rest of the chunk | high, not executed | DecoderAsWritten.CarryAsWritten | Decoder.RunStops |
| src/BootBuffer.ts:288-291 | after a `fallback` for a key cut short by the chunk, `lastKeyRead` is still set. The key is never copied. The value is read from the carried bytes at the head of the next buffer (line 226), and the rest of the carry is read as further records. | chunks `[1, 2, 1, 0x61]`, `[0x62, 0x63]`: the first entry is tag 1, key `[0, 0]`, string `[0x61]` | wait for the rest of the key | high, not executed | DecoderAsWritten.KeyCarryAsWritten | DecoderAsWritten.SplitKeyIntended |
| src/BootBuffer.ts:312-318 | the value cursor grows by the whole `buf.length`, and `fill` repeats the bytes at hand. When the buffer holding the value's start is at least as long as the value, a value split across chunks is completed from that buffer alone. When it is shorter, nothing is yielded and the count has grown by the whole buffer, not by the bytes copied (DecoderAsWritten.LongValueAsWritten, one chunk `[0, 0, 10, 0xAA]`). | chunks `[0, 0, 4, 0xAA]`, `[0xBB, 0xCC, 0xDD]` | copy only the bytes present and continue with the next chunk | high, not executed | DecoderAsWritten.ValueCursorAsWritten | DecoderAsWritten.SplitValueIntended |
| src/BootBuffer.ts:312-318 | when the buffer is at least as long as the value, a value cut off by the end of the stream is padded by repetition and yielded. | one chunk `[0, 0, 4, 0xAA, 0xBB]` | report the truncation | high, not executed | DecoderAsWritten.ShortValueAsWritten | DecoderAsWritten.ShortValueIntended |
| src/BootBuffer.ts:297 | the empty-value branch is reached only while unread bytes remain (line 230). A last record with an empty value is never yielded. | one chunk `[0, 0, 0]` | yield the empty value | high, not executed | DecoderAsWritten.EmptyLastValueAsWritten | DecoderAsWritten.EmptyLastValueIntended |
| src/BootBuffer.ts:334-335 | when the source ends inside a record, the generator returns silently. | one chunk `[1]` | report a truncated stream | high, not executed | DecoderAsWritten.TruncationAsWritten | DecoderAsWritten.TruncationIntended |
