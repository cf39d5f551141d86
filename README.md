# A verified model of a streaming RESP decoder

This project models the decoder of a small Redis-protocol (RESP2) server written in Rust. The decoder
wraps a byte reader. Each call of its iterator's `next()` reads one framed value from the
reader's current position:

- a simple string `+text\r\n`;
- a bulk string `$n\r\n` followed by `n` payload bytes and two unchecked bytes;
- an array `*n\r\n` followed by `n` values, each read recursively from its own marker byte.

Any other marker byte is an error. `next()` returns `None` only when the stream is exhausted at the
start of an attempt.

## How the model is built

The source module (`src/decoder.rs`) is imperative: every method advances the reader's shared cursor.
It is modelled the same way, as the class `RespDecoder.Decoder`:

- The class holds the stream as a constant and the cursor as the field `pos`.
- Each Rust method becomes a method with the same branches and loops.
- `read_crcf_terminated_string` has a `while` loop that grows a buffer. Where the Rust code truncates
  the buffer in place, the model re-binds a sequence variable to the prefix without the "\r\n".
- `decode_bulk_string` and `decode_array` have counted loops.
- The recursion goes through `decode_array` and then `decode`.

Each decoding method is proved against a pure reference function in `DecoderSpec`. Its `ensures` states that the
method's result and the new cursor are exactly those of the reference function at the old cursor:
`ByteAt`, `ReadLine`, `SimpleStringAt`, `BulkStringAt`, `ArrayAt`, `Elements`, `DecodeValue` and
`DecoderSpec.Next`. The loop invariants of `DecodeBulkString` are stated with `Payload`.

What the decoder promises is then proved about those functions in `DecoderProperties`. This covers:

- line reading, and the framing of each variant;
- every error case;
- the fact that decoded payloads are always valid UTF-8;
- a round trip with an encoder. The encoder (`RespEncoder`) is not part of the source. It exists as
  the decoder's inverse: decoding the encoding of any value, followed by anything, gives the value
  back and stops exactly where the rest begins.

The Rust unit tests become methods in `DecoderTests`. Each one builds a `Decoder` over the test's
bytes, calls `Next` once, and states the expected result.

### The data

- `RespProtocol.RespValue` is the enum of `src/resp_protocol.rs:2-6`: a simple string, a bulk string,
  or an array of values. It is a datatype, so its equality is structural, like the derived
  `PartialEq`/`Eq`.
- A Rust `String` payload becomes a byte sequence. The predicate `RespProtocol.WellFormed` states
  the UTF-8 invariant that `String` holds (`src/resp_protocol.rs:3-4`), at every depth of nesting.
- `DecoderSpec.ReadResult` is one item of the reader field `iter` (`src/decoder.rs:13`): a byte or an
  I/O error.
- `DecoderSpec.DecodeError` has one constructor per kind of error site: `bail!` at
  `src/decoder.rs:28` and `src/decoder.rs:72`, `anyhow!` at `src/decoder.rs:43` and
  `src/decoder.rs:56`, and each `?` on a failed `from_utf8`, `parse` or read.

### The stream

The reader `std::io::Bytes<R>` is modelled as the sequence of everything its successive `next()` calls
yield:

- `Byte(b)` for a byte;
- `IoError` for a failed read;
- the end of the sequence for `None`.

An I/O error is an item like any other. The two unchecked reads after a bulk payload therefore
swallow I/O errors as well as bytes, as the code does.

The reference functions return the outcome together with the cursor where it leaves the stream, on
errors too. The Rust iterator is not fused: after an error, the next `next()` resumes wherever the
failed attempt stopped. `Pulls` models a consumer that keeps calling `next()` until `None`.

### Text and integers

`String::from_utf8` is modelled by `Utf8.Valid`, the well-formedness of table 3-7 of the Unicode
Standard. `str::parse::<usize>` is modelled by `UsizeParse.ParseUsize`:

- it accepts an optional `+` followed by one or more ASCII digits;
- leading zeros are accepted;
- the value must be at most 2^64 - 1, as on a 64-bit target;
- it computes the value by the same multiply-and-add loop, failing on overflow.

RESP ends a bulk payload with "\r\n". The code (`// consume CRLF`, `src/decoder.rs:46-48`) calls
`next()` twice and ignores what it returns. It neither checks those two items nor fails when the
stream ends before them. `DecoderSpec.Skip` models exactly this.

## Model

| member | source | states |
|---|---|---|
| RespDecoder.Decoder.constructor | src/decoder.rs:17-21 | a new decoder reads the given stream from its first item |
| RespDecoder.Decoder.ReadNext | src/decoder.rs:47-48 | one `iter.next()`: the next item and a cursor one further, or `None` with the cursor unmoved at the end of the stream |
| RespDecoder.Decoder.NextByte | src/decoder.rs:40-43 | `next().ok_or(..)??`: result and new cursor are those of `ByteAt` |
| RespDecoder.Decoder.Decode | src/decoder.rs:23-30 | result and new cursor are those of `DecodeValue` for the marker |
| RespDecoder.Decoder.DecodeSimpleString | src/decoder.rs:32-34 | result and new cursor are those of `SimpleStringAt` |
| RespDecoder.Decoder.DecodeBulkString | src/decoder.rs:36-50 | result and new cursor are those of `BulkStringAt`; the loop keeps the invariant that the bytes read so far, prepended to the rest of `Payload`, give the whole of `Payload` |
| RespDecoder.Decoder.DecodeArray | src/decoder.rs:52-60 | result and new cursor are those of `ArrayAt` |
| RespDecoder.Decoder.DecodeElements | src/decoder.rs:54-58 | the `for _ in 0..n` loop of `decode_array`: result and new cursor are those of `Elements` |
| RespDecoder.Decoder.ReadCrlfTerminatedString | src/decoder.rs:62-73 | result and new cursor are those of `ReadLine`; the loop keeps `LineScan` from the current cursor and buffer equal to `LineScan` from the start |
| RespDecoder.Decoder.Next | src/decoder.rs:79-85 | result and new cursor are those of `DecoderSpec.Next`; on `None` the cursor does not move |
| DecoderSpec.Next | src/decoder.rs:79-85 | `None` exactly when the stream is exhausted; otherwise at least one item is consumed; an I/O error on the first read is `Some(Err(Io))` after one item |
| DecoderSpec.Pulls | src/decoder.rs:79-85 | pulling until `None` gives at most one result per remaining item, so it ends |
| DecoderSpec.ByteAt | src/decoder.rs:40-43 | succeeds exactly when the next item is a byte, and returns that byte one item further; fails with the given error at the end of the stream and with `Io` on an I/O error |
| DecoderSpec.Payload | src/decoder.rs:39-45 | a successful payload has exactly the declared number of bytes; the cursor stays within the stream |
| DecoderSpec.Elements | src/decoder.rs:55-58 | a successful loop yields exactly the declared number of elements and has consumed at least one item per element |
| DecoderSpec.ArrayOf | src/decoder.rs:59 | a finished loop becomes `Array` of its elements, in order, at the same cursor; a failed loop keeps its error |
| DecoderSpec.Skip | src/decoder.rs:47-48 | `n` unchecked `next()` calls move the cursor exactly `n` items when that many remain, and to the end of the stream otherwise |
| DecoderSpec.PayloadThenSkip | src/decoder.rs:39-48 | the payload loop and the two skipped items never move the cursor backwards or past the end |
| DecoderSpec.FromBytes | src/decoder.rs:95-96 | a reader over an in-memory buffer yields each of its bytes, in order, and never an I/O error |
| DecoderSpec.LineScan | src/decoder.rs:64-71 | the scan never moves the cursor backwards or past the end |
| DecoderSpec.ReadLine | src/decoder.rs:62-73 | reading a line never moves the cursor backwards or past the end |
| DecoderSpec.LengthAt | src/decoder.rs:37 | reading a length prefix never moves the cursor backwards or past the end |
| DecoderSpec.SimpleStringAt | src/decoder.rs:32-34 | the cursor never moves backwards or past the end |
| DecoderSpec.BulkStringAt | src/decoder.rs:36-50 | the cursor never moves backwards or past the end |
| DecoderSpec.ArrayAt | src/decoder.rs:52-60 | the cursor never moves backwards or past the end |
| DecoderSpec.DecodeValue | src/decoder.rs:23-30 | the cursor never moves backwards or past the end |
| DecoderSpec.ElementsStep | src/decoder.rs:56-57 | after one element is decoded, the rest of the loop continues from where that element ended |
| DecoderSpec.PayloadStep | src/decoder.rs:40-44 | after one payload byte is read, the rest of the loop continues one item further |
| DecoderProperties.ScanFindsTerminator | src/decoder.rs:64-70 | a scan started anywhere inside a line that has no "\r\n", followed by "\r\n", returns that line and stops just past the "\n" |
| DecoderProperties.ReadLineOfLine | src/decoder.rs:62-73 | such a line is returned whole when it is valid UTF-8, and is an `InvalidUtf8` error otherwise; either way the cursor lands just past the "\n" |
| DecoderProperties.ScanSound | src/decoder.rs:64-70 | anything the scan returns stood in the stream followed by "\r\n", held no "\r\n", and the cursor is just past the terminator |
| DecoderProperties.ReadLineSound | src/decoder.rs:62-73 | a successful read returns exactly the bytes before the first "\r\n", without the terminator, and leaves the cursor just past it |
| DecoderProperties.ScanIncomplete | src/decoder.rs:64-72 | a scan over bytes that end without "\r\n" reports `IncompleteString` at the end of the stream |
| DecoderProperties.ReadLineIncomplete | src/decoder.rs:72 | a stream that ends before any "\r\n" gives `IncompleteString`, with everything consumed |
| DecoderProperties.LengthOfLine | src/decoder.rs:37 | a prefix line is `InvalidUtf8` when it is not UTF-8, `InvalidInteger` when it does not parse, and its parsed value otherwise; the cursor lands after the line |
| DecoderProperties.ParsedLine | src/decoder.rs:37 | a line that parses as a `usize` has no "\r\n" in it and is valid UTF-8 |
| DecoderProperties.LengthParsed | src/decoder.rs:53 | a line that parses to `n`, followed by "\r\n", reads back as the prefix `n` |
| DecoderProperties.PayloadOfBytes | src/decoder.rs:39-45 | with `k` bytes in the stream, the payload loop returns exactly those bytes, in order, `k` items further |
| DecoderProperties.PayloadTruncated | src/decoder.rs:39-43 | when the stream ends before `k` bytes, the payload loop fails with `MissingBulkData` at the end of the stream |
| DecoderProperties.BulkStringFraming | src/decoder.rs:36-50 | after a length line declaring `n`, exactly `n` payload bytes are read. Then up to two more items are consumed without checking them, and without an error when they are missing. The payload is the value when it is UTF-8, and `InvalidUtf8` otherwise |
| DecoderProperties.BulkStringTruncated | src/decoder.rs:39-43 | a bulk string whose stream ends inside the payload is `MissingBulkData`, never a value |
| DecoderProperties.ArrayHasDeclaredCount | src/decoder.rs:52-60 | a decoded array has exactly as many elements as its count line declares |
| DecoderProperties.EmptyArray | src/decoder.rs:53-59 | a count of zero gives the empty array and reads nothing after the count line |
| DecoderProperties.ArrayTruncated | src/decoder.rs:52-58 | an array whose count line declares `n` but whose stream ends after fewer than `n` encoded elements gives `MissingArrayElement`, never a value, with the whole stream consumed |
| DecoderProperties.ArrayElementsTruncated | src/decoder.rs:55-58 | the same, stated once the count line has been read |
| DecoderProperties.ElementsTruncated | src/decoder.rs:55-56 | the element loop, given fewer encoded values than it expects, fails with `MissingArrayElement` at the end of the stream |
| DecoderProperties.BadLengthLine | src/decoder.rs:37 | for both bulk strings and arrays, a prefix line that does not parse is `InvalidInteger` (or `InvalidUtf8` when it is not text), and the cursor stops after the line |
| DecoderProperties.InvalidMarker | src/decoder.rs:28 | a first byte other than '+', '$' and '*' is `InvalidMagic` of that byte, and only the marker is consumed |
| DecoderProperties.DecodedWellFormed | src/resp_protocol.rs:3-4 | every decoded value holds valid UTF-8 in every payload at every depth, as a Rust `String` does |
| DecoderProperties.ElementsWellFormed | src/resp_protocol.rs:5 | every element of a decoded array is well formed |
| DecoderProperties.DecodeEncoded | src/decoder.rs:23-30 | decoding the encoding of any encodable value that stands in the stream gives the value back and stops just after its encoding |
| DecoderProperties.SimpleStringEncoded | src/decoder.rs:32-34 | the encoding of a simple string decodes to it |
| DecoderProperties.BulkStringEncoded | src/decoder.rs:36-50 | the encoding of a bulk string decodes to it |
| DecoderProperties.ArrayEncoded | src/decoder.rs:52-60 | the encoding of an array decodes to it, element by element, in order |
| DecoderProperties.PrefixEncoded | src/decoder.rs:37 | a marker, the decimal form of `n` and "\r\n" read back as the prefix `n` |
| DecoderProperties.ElementsEncoded | src/decoder.rs:55-58 | the encodings of `k` values back to back decode to those `k` values, in order |
| DecoderProperties.RoundTrip | src/decoder.rs:79-85 | `next()` over the encoding of a value followed by anything gives the value and leaves the cursor exactly at the start of what follows |
| DecoderProperties.PullsEncoded | src/decoder.rs:79-85 | pulling from encodings placed back to back to the end of the stream gives exactly those values, all successful |
| DecoderProperties.StreamRoundTrip | src/decoder.rs:79-85 | a stream of concatenated encodings yields exactly those values, one per `next()`, in order, and then `None` |
| DecoderProperties.EncodeInjective | src/resp_protocol.rs:1 | the encoding is injective on encodable values: two of them have equal encodings exactly when they are equal |
| UsizeParse.ParseUsize | src/decoder.rs:37 | a parsed value never exceeds 2^64 - 1 |
| UsizeParse.Step | src/decoder.rs:37 | one digit step succeeds exactly on a digit whose `acc * 10 + digit` fits in a `usize`, and gives that value |
| UsizeParse.Accumulate | src/decoder.rs:37 | the digit loop never decreases the accumulator and never leaves the `usize` range when it starts inside it |
| UsizeParse.ParseUsizeValue | src/decoder.rs:37 | parsing succeeds exactly on an optional '+' followed by one or more digits whose positional value fits in a `usize`, and returns that value |
| UsizeParse.ParseDecimal | src/decoder.rs:37 | the decimal form of any `usize`, with or without a leading '+', parses back to it |
| UsizeParse.LeadingZero | src/decoder.rs:37 | a '0' put in front of the digits, after the optional '+', changes neither whether the text parses nor the value it parses to |
| UsizeParse.ParsedIsAscii | src/decoder.rs:37 | a text that parses is ASCII and holds no "\r" |
| Utf8.LeadWidth | src/decoder.rs:69 | an ASCII byte is exactly a one-byte sequence, and no sequence is longer than four bytes or than the text |
| Utf8.AsciiIsValid | src/decoder.rs:69 | ASCII text passes `String::from_utf8` |
| Utf8.InvalidLead | src/decoder.rs:69 | a text that starts with a continuation byte, 0xC0, 0xC1 or a byte above 0xF4 fails `String::from_utf8` |
| DecoderTests.DecodeOne | src/decoder.rs:79-85 | one `next()` on a fresh decoder over an encoded value returns that value |
| DecoderTests.DecodeSimpleStringTest | src/decoder.rs:94-100 | "+PING\r\n" gives `SimpleString("PING")` |
| DecoderTests.DecodeBulkStringEmptyTest | src/decoder.rs:103-109 | "$0\r\n\r\n" gives `BulkString("")` |
| DecoderTests.DecodeBulkStringTest | src/decoder.rs:112-118 | "$5\r\nhello\r\n" gives `BulkString("hello")` |
| DecoderTests.DecodeArrayEmptyTest | src/decoder.rs:121-127 | "*0\r\n" gives `Array([])` |
| DecoderTests.DecodeArrayBulkStringsTest | src/decoder.rs:130-142 | "*2\r\n$5\r\nhello\r\n$5\r\nworld\r\n" gives the array of "hello" and "world", in that order |
| DecoderTests.DecodeBulkStringTruncatedTest | src/decoder.rs:39-43 | "$5\r\nhel" gives `MissingBulkData` after consuming all seven bytes |
| DecoderTests.InvalidMarkerTest | src/decoder.rs:28 | "@foo" gives `InvalidMagic(64)` after consuming only the marker |

## Left out

- `src/server.rs` (a tokio TCP listener, a task per connection, and the `PING` reply) and
  `src/main.rs` (process entry and socket bind) are not part of this model. They are I/O and
  concurrency plumbing.
- The reader's I/O errors are a single `IoError` item. Error kinds and messages are not modelled.
  The text of each `anyhow!`/`bail!` message is replaced by its own `DecodeError` constructor.
- `Vec::with_capacity(n)` is an allocation hint only. For a huge declared `n` the Rust code panics
  ("capacity overflow", when the size in bytes exceeds `isize::MAX`, a lower count for arrays of
  `RespValue`) or aborts on an allocation failure. Neither is modelled: the model goes on reading.
- Readers that yield items again after returning `None` are not modelled. The model treats the
  reader as fused: the stream is one finite sequence, and its end is final.
- `usize` is taken to be 64 bits wide. On a 32-bit target the parse bound would be 2^32 - 1.
- Rust's `String` holds its UTF-8 invariant in the type. Here a payload is a plain byte sequence.
  The invariant is the predicate `RespProtocol.WellFormed`, which `DecodedWellFormed` proves of
  every decoded value.
- RespDecoder.Decoder.DecodeElements: the counted loop of `decode_array` is a method of its own,
  called at the point where the loop stands. The order of reads and the state changes are the same.
- Unbounded recursion depth: nested arrays recurse without limit in the model, as in the source.
  Stack exhaustion is not modelled.
