# Ziplist entry codec

A Dafny model of the entry codec in `src/ziplist/lib.rs`, the byte-level primitives of a
Rust port of the Redis ziplist format. A ziplist entry is laid out as follows:

- **Previous-entry-length field.** One byte when the previous entry is shorter than 254
  bytes. Otherwise the marker byte 254 followed by the length as a 32-bit little-endian
  number.
- **Header.** A tag byte. For strings, the tag byte and the following bytes also hold a
  6-, 14- or 32-bit length. For integers, the tag names the payload width (1, 2, 3, 4 or
  8 bytes), or is an immediate that holds a small value itself.
- **Payload.** The string bytes, or the integer as little-endian two's complement.

The model covers the codec's operations on these fields:

- decoding and sizing the previous-entry-length field;
- classifying, decoding and encoding the header, including the size-only dry run when no
  destination is given;
- the exact decimal parser `string_to_number` and the width policy `try_encoding`;
- the payload writer `save_integer` and the element counter `incr_length`.

Files:

| file | module | content |
|---|---|---|
| `constants.dfy` | `ZiplistConstants` | integer types, tag constants, error kinds, `Result`/`Option`/`Outcome` |
| `bytes.dfy` | `Bytes` | little-endian byte strings and two's complement |
| `decimal.dfy` | `DecimalText` | decimal digit runs and the canonical rendering of an integer |
| `prevlen.dfy` | `ZiplistPrevLen` | the previous-entry-length field |
| `number.dfy` | `ZiplistNumber` | `string_to_number`, `try_encoding`, `int_size` |
| `header.dfy` | `ZiplistHeader` | `entry_encoding`, `is_string`, `decode_length`, `encoding_len_size`, `store_entry_encoding` |
| `payload.dfy` | `ZiplistPayload` | `save_integer`, `incr_length` |

How Rust constructs are represented:

- **Integer types.** Each Rust integer type is a subset type of `int` (`u8`, `u16`,
  `u32`, `u64`, `i64`). Masks and shifts are written as division and remainder.
- **Optional destinations.** An `Option<&mut [u8]>` destination is an `array?<u8>`, with
  `null` for `None`.
- **Short buffers.** A Rust panic on an index past the end of a buffer that is too short
  is a `requires` clause.
- **Panics on valid input.** A panic that can happen on a well-sized input is a result
  value: `Outcome.Panics`, or a `panicked` out-parameter of a method.
- **Operations that write nothing.** Operations whose writes never reach the caller's
  buffer are methods without a `modifies` clause. Dafny's framing then proves the buffer
  unchanged.

The tag constants come from the `crate::ziplist` module, which is not part of this
model. They take the Redis values:

- `ZIP_STR_MASK` = 0xc0.
- String tags: `ZIP_STR_06B`/`14B`/`32B` = 0x00/0x40/0x80.
- Integer tags: `ZIP_INT_16B`/`32B`/`64B`/`24B`/`8B` = 0xc0/0xd0/0xe0/0xf0/0xfe.
- Immediates: 0xf1..0xfd.
- `ZIP_BIG_PREVLEN` = 254.
- `INT_24_MIN`/`INT_24_MAX` = -2^23 / 2^23-1.
- `LONG_STR_SIZE` = 21.
- `ZIPLIST_LENGTH_OFFSET` = 8.
- `ZIP_ENCODING_SIZE_INVALID` = 0xff.

The source has several defects, listed under "## Findings". For each one the model has
two members:

- an as-written member that behaves exactly as the code does;
- a corrected member, with the property the format intends proved about it.

## Model

| member | source | states |
|---|---|---|
| ZiplistPrevLen.DecodePrevLenSize | src/ziplist/lib.rs:9-15 | the field is 1 byte exactly when its first byte is below ZIP_BIG_PREVLEN, 5 bytes otherwise |
| ZiplistPrevLen.DecodePrevLen | src/ziplist/lib.rs:17-25 | the width agrees with `decode_prev_len_size`; a 1-byte field holds the length itself; a 5-byte field holds the little-endian value of bytes 1..5 |
| ZiplistPrevLen.PrevEntryLengthSize | src/ziplist/lib.rs:203-207 | the size-only path: 1 exactly when len < ZIP_BIG_PREVLEN, otherwise 5 |
| ZiplistPrevLen.EncodePrevLen | src/ziplist/lib.rs:186-209 | the bytes of the field for a length have exactly the width the size-only call reports |
| ZiplistPrevLen.StorePrevEntryLengthLarge | src/ziplist/lib.rs:186-192 | returns 5, the width of a large field; the caller's buffer is never written (no modifies clause) |
| ZiplistPrevLen.StorePrevEntryLength | src/ziplist/lib.rs:194-209 | returns 1 iff len < ZIP_BIG_PREVLEN and 5 otherwise, the same with or without a destination; the buffer is never written |
| ZiplistPrevLen.StoredPrevLenIsNotVisible | src/ziplist/lib.rs:194-200 | after storing any nonzero length into a zeroed buffer, decoding still reads (1, 0), not what was stored |
| ZiplistPrevLen.StorePrevEntryLengthFixed | src/ziplist/lib.rs:186-209 | a store that writes the field: the reported width, the field's bytes in front, the rest of the buffer unchanged |
| ZiplistPrevLen.PrevLenRoundTrip | src/ziplist/lib.rs:17-25 | decoding a written field gives back the length and the width the size-only call reported |
| ZiplistPrevLen.PrevLenBytesDiff | src/ziplist/lib.rs:255-258 | the width change is -4, 0 or 4: +4 exactly when a 1-byte field must hold a large length, -4 exactly when a 5-byte field must hold a small one |
| ZiplistPrevLen.PrevLenBytesDiffAfterStore | src/ziplist/lib.rs:255-258 | once a field is written for len, no further resize is needed for len |
| ZiplistNumber.Accumulate | src/ziplist/lib.rs:110-125 | the digit loop as a function: a successful run never lowers the accumulator, and it fails only with InvalidChar, OverFlowMul or OverFlowAdd |
| ZiplistNumber.ParseNumber | src/ziplist/lib.rs:85-138 | the parser's outcome: a panic only on text of 1..20 bytes starting with '-'; success only on text of 1..20 bytes, negative exactly when the text starts with '-'; OverFlowNegative only with '-', OverFlowPositive only without (partners: ParseNumberCanonical, ParseNumberRoundTrip) |
| ZiplistNumber.StringToNumber | src/ziplist/lib.rs:85-138 | the digit loop (with its invariant) computes the parser's outcome on every input, including both panics |
| ZiplistNumber.AccumulateDigits | src/ziplist/lib.rs:110-125 | over a digit run, the loop yields the run's decimal value when it fits u64, and OverFlowMul or OverFlowAdd when it does not |
| ZiplistNumber.AccumulateOnlyDigits | src/ziplist/lib.rs:110-114 | the loop succeeds only when every remaining byte is a digit |
| ZiplistNumber.AccumulateFromFirstDigit | src/ziplist/lib.rs:103-125 | started after the first digit, the accumulator ends at the value of the whole digit run |
| ZiplistNumber.ParseNumberOfDigitRun | src/ziplist/lib.rs:85-138 | on an optional '-' and a digit run without a leading zero, the result is decided by the run's value: u64 overflow, OverFlowNegative, OverFlowPositive, the i64::MIN panic, or the signed value |
| ZiplistNumber.CanonicalFromRun | src/ziplist/lib.rs:98-108 | an optional '-' and a digit run without a leading zero is the canonical rendering of its signed value |
| ZiplistNumber.CanonicalFromAccumulate | src/ziplist/lib.rs:103-131 | when the loop succeeds, the text is the canonical rendering of the signed accumulated value |
| ZiplistNumber.ParseNumberCanonical | src/ziplist/lib.rs:85-138 | every accepted text is the canonical decimal rendering of the value returned: no leading zero, no '+', no "-0", nothing around the digits |
| ZiplistNumber.ParseNumberOfPositive | src/ziplist/lib.rs:110-136 | for a positive magnitude of at most 20 digits: the value up to i64::MAX, OverFlowPositive up to u64::MAX, u64 overflow above |
| ZiplistNumber.ParseNumberOfNegative | src/ziplist/lib.rs:110-131 | for a negative number of at most 19 digits: the value above i64::MIN, a panic at i64::MIN, OverFlowNegative below |
| ZiplistNumber.ParseNumberRoundTrip | src/ziplist/lib.rs:85-138 | the decimal rendering of every i64 except i64::MIN parses back to that value |
| ZiplistNumber.ParseNumberPanics | src/ziplist/lib.rs:98-131 | the parser panics exactly on "-" and on the rendering of i64::MIN |
| ZiplistNumber.ParseNumberPanicsOnMin | src/ziplist/lib.rs:127-131 | the rendering of i64::MIN reaches the negation of i64::MIN |
| ZiplistNumber.ParseNumberPanicsOnlyOnMin | src/ziplist/lib.rs:98-131 | any other panicking input is the rendering of i64::MIN |
| ZiplistNumber.ParseNumberInvalidChar | src/ziplist/lib.rs:110-114 | for text of 1..20 bytes with a valid first digit, the result is InvalidChar exactly when a non-digit follows the first digit |
| ZiplistNumber.AccumulateInvalidChar | src/ziplist/lib.rs:110-125 | within the 20-digit limit no overflow check fires before a non-digit, so the loop ends with InvalidChar |
| ZiplistNumber.ParseNumberInvalidFirstDigit | src/ziplist/lib.rs:98-108 | for text of 1..20 bytes other than "0" and "-", InvalidFirstDigit holds exactly when the byte after an optional '-' is not one of '1'..'9' |
| ZiplistNumber.ParseNumberRejections | src/ziplist/lib.rs:91-108 | "" is InValidString; "0" is 0; "00", "-0", "+1" and "abc" are InvalidFirstDigit |
| ZiplistNumber.ParseNumberTooLong | src/ziplist/lib.rs:91-93 | text of LONG_STR_SIZE bytes or more is InValidString |
| ZiplistNumber.ParseNumberFixed | src/ziplist/lib.rs:85-138 | the parser without its two panics: whatever it accepts is the canonical rendering of the value returned |
| ZiplistNumber.ParseNumberFixedIsCanonical | src/ziplist/lib.rs:85-138 | the corrected parser returns v exactly on the decimal rendering of v, for every i64 v including i64::MIN |
| ZiplistNumber.TryEncoding | src/ziplist/lib.rs:141-167 | a stored integer is the value the parser returns for the text, and `try_encoding` panics exactly when the parser does (partners: TryEncodingNone, TryEncodingRoundTrip) |
| ZiplistNumber.IntegerTag | src/ziplist/lib.rs:148-160 | an immediate exactly for 0..11, holding the value as tag minus ZIP_INT_IMM_MIN; any other value gets an integer tag of payload width 1, 2, 3, 4 or 8 (minimality: TryEncodingMinimalWidth) |
| ZiplistNumber.TryEncodingMinimalWidth | src/ziplist/lib.rs:146-161 | values 0..11 get the immediate ZIP_INT_IMM_MIN + v, and only they get an immediate; any other value gets the narrowest of the 1/2/3/4/8-byte tags that holds it |
| ZiplistNumber.TryEncodingOnlyCanonical | src/ziplist/lib.rs:141-167 | only canonical decimal text is stored as an integer |
| ZiplistNumber.TryEncodingNone | src/ziplist/lib.rs:141-167 | None exactly when the parser rejects the text, and a panic exactly when the parser panics; the empty and 32-byte guard never decides |
| ZiplistNumber.TryEncodingRoundTrip | src/ziplist/lib.rs:141-167 | the rendering of every i64 except i64::MIN is stored as that value with its width tag |
| ZiplistNumber.IntSizeFixed | src/ziplist/lib.rs:171-177 | the payload width the match computes: nonzero exactly for the five integer tags, one of 1, 2, 3, 4, 8; `decode_length` reports the same width |
| ZiplistNumber.IntSize | src/ziplist/lib.rs:169-184 | returns 0 for every tag, which differs from the payload width for an integer tag such as ZIP_INT_8B |
| ZiplistHeader.IsString | src/ziplist/lib.rs:211-213 | a tag is a string tag exactly when it is below ZIP_STR_MASK |
| ZiplistHeader.EntryEncoding | src/ziplist/lib.rs:27-33 | a string header yields one of the three string tags; any other tag is returned unchanged |
| ZiplistHeader.DecodeLength | src/ziplist/lib.rs:42-71 | (1, ≤63) for ZIP_STR_06B, (2, ≤16383) for ZIP_STR_14B, (5, little-endian u32) for ZIP_STR_32B, (1, payload width in {1,2,3,4,8}) for integer tags, (1, 0) for immediates, (0, 0) exactly for all other tags |
| ZiplistHeader.EncodingLenSize | src/ziplist/lib.rs:73-83 | the header size is 1, 2, 5 or ZIP_ENCODING_SIZE_INVALID |
| ZiplistHeader.EncodingLenSizeAgrees | src/ziplist/lib.rs:42-83 | `encoding_len_size` equals the header size `decode_length` finds, and both reject the same tags |
| ZiplistHeader.StringHeaderAlwaysDecodes | src/ziplist/lib.rs:27-57 | the tag read off any string header is one `decode_length` understands |
| ZiplistHeader.EntryEncodingSize | src/ziplist/lib.rs:219-246 | the size-only path: 1, 2 or 5; 1 for every integer tag; for a string, 1 exactly up to length 0x3f and 2 exactly from 0x40 to 0x3fff |
| ZiplistHeader.EntryEncodingBytes | src/ziplist/lib.rs:215-248 | the header bytes written have exactly the length the size-only call reports |
| ZiplistHeader.StoreEntryEncoding | src/ziplist/lib.rs:215-253 | returns 1/2/5 for string lengths up to 0x3f, up to 0x3fff and beyond, and 1 for integer tags, with or without a destination; with one, exactly the first len bytes change |
| ZiplistHeader.StringHeaderRoundTrip | src/ziplist/lib.rs:215-231 | a 1- or 2-byte string header decodes to the size reported and the length written |
| ZiplistHeader.IntegerHeaderRoundTrip | src/ziplist/lib.rs:243-248 | an integer header is its tag byte, and decodes to (1, payload width), or (0, 0) for an unknown tag |
| ZiplistHeader.LargeStringHeaderSwapsBytes | src/ziplist/lib.rs:232-241 | a 5-byte header decodes its length as the written bytes read little-endian, so a header written for 0x4000 decodes as 0x40_0000 |
| ZiplistHeader.BeBytesRoundTrip | src/ziplist/lib.rs:238-241 | the four length bytes `store_entry_encoding` writes, read most significant first, give the length back |
| ZiplistHeader.DecodeLengthFixed | src/ziplist/lib.rs:42-71 | `decode_length` with the 32-bit length read most significant byte first: rejects the same tags, and a 5-byte header gives (5, big-endian length) (round trip: StringHeaderRoundTripFixed) |
| ZiplistHeader.StringHeaderRoundTripFixed | src/ziplist/lib.rs:215-253 | with the 32-bit length read in the order it is written, every string header decodes to the size reported and the length written |
| ZiplistPayload.SaveInteger | src/ziplist/lib.rs:260-286 | panics exactly on tags other than ZIP_INT_8B, ZIP_INT_16B, ZIP_STR_32B, ZIP_INT_64B and the immediates, and then writes nothing; otherwise it writes the low w bytes of the value little-endian into ptr[0..w) and nothing else |
| ZiplistPayload.SaveIntegerFixed | src/ziplist/lib.rs:260-286 | every integer tag writes the value's low payload-width bytes, an immediate writes nothing, the rest of the buffer is unchanged |
| ZiplistPayload.PayloadRoundTrip | src/ziplist/lib.rs:260-286 | a value written in a width that holds it reads back unchanged |
| ZiplistPayload.IntegerRoundTrip | src/ziplist/lib.rs:141-167 | text to tag to payload bytes and back returns every i64 except i64::MIN |
| ZiplistPayload.TryEncodingReachesSaveIntegerPanics | src/ziplist/lib.rs:269-283 | `try_encoding` hands `save_integer` a panicking tag exactly for values outside the 16-bit range that fit in 32 bits |
| ZiplistPayload.IncrLength | src/ziplist/lib.rs:288-293 | the buffer is never changed; the call panics exactly when the stored count is below u16::MAX |
| ZiplistPayload.IncrLengthFixed | src/ziplist/lib.rs:288-293 | the stored count stays at u16::MAX once there, and otherwise becomes the old count plus incr cut to 16 bits; no other byte changes |
| ZiplistPayload.NextCountKeepsAccuracy | src/ziplist/lib.rs:288-293 | the counter stays exact below u16::MAX and pinned at u16::MAX from then on, for increments that do not jump past u16::MAX from below |

## Left out

- The `Content` enum (src/ziplist/lib.rs:4-7) is not used by any codec function.
- The `to_number` test (src/ziplist/lib.rs:295-311) prints its result and asserts nothing.
- `src/kvstore/test.rs` is a test driver for a sharded hash table whose code is not part of this model.
- The list container around the codec (insertion, deletion, cascade update, iteration) is not part of this model.
- The `crate::ziplist` constants module is not part of this model. Its values are taken as the Redis values listed above.
- A panic caused by a too-short buffer is a `requires` clause, not a modelled outcome. Rust's unwinding is not modelled.
- ParseNumber: negating i64::MIN is modelled as the debug-build panic. A release build wraps it to i64::MIN, which is the intended value; `ParseNumberFixed` returns that value.
- StringToNumber: Rust's `&str` is modelled by its UTF-8 bytes. The parser only inspects ASCII bytes, so no character decoding is needed.
- IncrLengthFixed: the count is cut to 16 bits. An increment that jumps past u16::MAX from below therefore wraps instead of saturating, as in Redis.
- IncrLength: the panic in the unsaturated path is a `panicked` result. A debug-build overflow of `len + incr` would also panic, with the same outcome.

## Findings

| source | as written | input that shows it | evidently intended | confidence | as-written member | corrected member |
|---|---|---|---|---|---|---|
| src/ziplist/lib.rs:186-200 | `store_prev_entry_length(_large)` assigns into `p.to_vec()` temporaries, so the caller's buffer is never written | len = 300 into a zeroed 5-byte buffer: the field still decodes as (1, 0) | write the field into the caller's buffer so that it decodes back as (size, len) | not executed | ZiplistPrevLen.StoredPrevLenIsNotVisible | ZiplistPrevLen.StorePrevEntryLengthFixed |
| src/ziplist/lib.rs:169-184 | the `match` value is discarded by the `;` after it, so `int_size` returns 0 for every tag | ZIP_INT_8B gives 0 instead of 1 | return the payload width 1/2/3/4/8 of the integer tags, the width `decode_length` reports | not executed | ZiplistNumber.IntSize | ZiplistNumber.IntSizeFixed |
| src/ziplist/lib.rs:53 | `decode_length` reads the 32-bit string length little-endian, while `store_entry_encoding` (lines 238-241) writes it big-endian, as the Redis format does | a header written for length 0x4000 decodes as 0x40_0000 | read the length most significant byte first, so that every string header round-trips (StringHeaderRoundTripFixed) | not executed | ZiplistHeader.LargeStringHeaderSwapsBytes | ZiplistHeader.DecodeLengthFixed |
| src/ziplist/lib.rs:273 | the 4-byte arm of `save_integer` matches ZIP_STR_32B instead of ZIP_INT_32B, so ZIP_INT_32B reaches the panic | value 2^23, which `try_encoding` tags ZIP_INT_32B | write 4 little-endian bytes for ZIP_INT_32B (IntegerRoundTrip) | not executed | ZiplistPayload.TryEncodingReachesSaveIntegerPanics | ZiplistPayload.SaveIntegerFixed |
| src/ziplist/lib.rs:269-271 | the 24-bit arm copies a 7-byte slice into 3 bytes, which panics | value 2^15, which `try_encoding` tags ZIP_INT_24B | write the low 3 bytes little-endian (IntegerRoundTrip) | not executed | ZiplistPayload.SaveInteger | ZiplistPayload.SaveIntegerFixed |
| src/ziplist/lib.rs:291 | `incr_length` copies the 8 bytes of a `usize` into the 2-byte count field, which panics | a stored count of 3 and incr = 1 | write the new count back as 2 little-endian bytes; it stays at u16::MAX once reached, and a sum crossing it is cut to 16 bits, as in Redis (NextCountKeepsAccuracy) | not executed | ZiplistPayload.IncrLength | ZiplistPayload.IncrLengthFixed |
| src/ziplist/lib.rs:98-103 | after a leading '-' the first-digit check indexes past the end of the text | "-" | reject "-" with InvalidFirstDigit | not executed | ZiplistNumber.ParseNumberPanics | ZiplistNumber.ParseNumberFixed |
| src/ziplist/lib.rs:128-131 | the negative bound admits the magnitude 2^63, and `-(v as i64)` then negates i64::MIN (a panic in debug builds) | "-9223372036854775808" | return i64::MIN, so that every i64 is parsed back from its rendering (ParseNumberFixedIsCanonical) | not executed | ZiplistNumber.ParseNumberPanics | ZiplistNumber.ParseNumberFixed |
