# PickleUtils byte codec, modelled in Dafny

This project models the byte-level layer that the Java pickle library
(`net.razorvine.pickle`) uses to turn raw pickle bytes into primitive values
and back. It proves properties of that model. The layer is the class
`PickleUtils`; the modelled parts are:

- the stream readers `readline`, `readbyte`, `readbytes` and `readbytes_into`,
  over an input stream given at construction;
- the fixed-width codecs: `bytes_to_integer` reads 2-byte unsigned and 4-byte
  signed little-endian integers, and `integer_to_bytes` writes the 4-byte form;
- `double_to_bytes` and `bytes_to_double`, at the level of the 64-bit pattern,
  most significant byte first;
- the arbitrary-precision codec `decode_long` and `encode_long`, plus
  `optimizeBigint`, which narrows a `BigInteger` to a `Long` when it fits;
- the raw byte/char conversions `rawStringFromBytes` and `str2bytes`;
- the escape decoders `decode_escaped` (`\\` and `\xHH`) and
  `decode_unicode_escaped` (`\\` and `\uHHHH`).

Modules, one file each:

- `JavaTypes` (java_types.dfy) holds Java's value types and the error datatype.
  - A Java `byte` is its octet, 0..255, the value `b & 0xff` gives.
  - A Java `char` is `Char16`, 0..0xFFFF, and a `String` is a sequence of them.
  - `int` and `long` are the ranges `Int32` and `Int64`.
  - Each kind of exception the layer throws is one `Error` constructor.
  - A call that returns or throws gives a `Result`.
  - A void call that may throw gives an `Outcome`.
- `TwosComplement` (twos_complement.dfy) specifies two's-complement byte strings in both byte orders, and the minimal length that `BigInteger.toByteArray` produces.
- `FixedWidthCodec` (fixed_width.dfy) holds the integer and double-bit codecs.
- `BigIntCodec` (big_int.dfy) holds `decode_long`, `encode_long` and `optimizeBigint`.
- `EscapeCodec` (escape_codec.dfy) holds the raw conversions and the escape decoders, which share one specification, `Unescape`, parameterised by dialect.
- `StreamReader` (stream_reader.dfy) holds the input stream and the `PickleUtils` class with its reading methods.

Java's shift and mask operations are modelled in arithmetic:

| Java | Model |
|---|---|
| `x & 0xff` | `x % 0x100` |
| `x >>= 8` | `x / 0x100`, floor division, which is the same as an arithmetic shift |
| `x <<= 8` | `x * 0x100` |
| `x \|= b & 0xff` straight after a shift | `OrLowByte` |

The accumulators of `bytes_to_integer` and `bytes_to_double` are typed `Int32` and `Int64`, so each left shift is proved not to overflow. The one exception is the last shift of `bytes_to_double`: it moves the top byte into the sign bit, and the model wraps it explicitly with `Wrap64`. The right shifts of `integer_to_bytes` and `double_to_bytes` use an unbounded local, since a floor division by 256 never leaves the range.

The input stream is a class: the bytes it will deliver (`data`) and a cursor (`pos`).
- Its `read()` returns -1 at the end.
- Its `read(buffer, offset, length)` throws on a range outside the buffer. Otherwise it stores and returns any number from 1 to `length` of the next bytes, chosen nondeterministically.
- So the retry loop of `readbytes_into` is proved correct however the stream splits a read.

Two `BigInteger` operations are specified rather than modelled:
- `new BigInteger(bytes)` on a non-empty array is `SignedBE`. Java's constructor throws on an empty array, but `decode_long` returns before that case (PickleUtils.java:175-176).
- `toByteArray()` is `BigIntCodec.ToByteArray`, the `ByteLength`-byte big-endian two's complement.

## Model

| member | source | states |
|---|---|---|
| JavaTypes.SignedByte | java/src/net/razorvine/pickle/PickleUtils.java:95 | A byte widened to `int` keeps its low eight bits and lies in -128..127. This is the sign extension of `int i = bytes[3]`. |
| JavaTypes.Wrap64 | java/src/net/razorvine/pickle/PickleUtils.java:164 | A `long` result is congruent to the exact value modulo 2^64. |
| JavaTypes.Wrap64Exact | java/src/net/razorvine/pickle/PickleUtils.java:164 | A long plus any multiple of 2^64 wraps back to that long. |
| JavaTypes.OrLowByte | java/src/net/razorvine/pickle/PickleUtils.java:91 | A byte or-ed into a value whose low byte is clear becomes the low byte, and the bits above it are unchanged. |
| TwosComplement.SignedLERange | java/src/net/razorvine/pickle/PickleUtils.java:93-102 | Every n-byte little-endian string denotes a value in the n-byte two's-complement range. |
| TwosComplement.SignedLEOfTwos | java/src/net/razorvine/pickle/PickleUtils.java:110-120 | Decoding the n-byte little-endian encoding of a value that fits in n bytes gives the value back. |
| TwosComplement.TwosLEOfSigned | java/src/net/razorvine/pickle/PickleUtils.java:85-120 | Encoding the value of a byte string at its own length gives the same bytes. |
| TwosComplement.SignedBEReverse | java/src/net/razorvine/pickle/PickleUtils.java:177-181 | New BigInteger of the reversed array equals the little-endian value of the original array. |
| TwosComplement.ReverseTwosBE | java/src/net/razorvine/pickle/PickleUtils.java:189-194 | Reversing the big-endian encoding gives the little-endian encoding. |
| TwosComplement.SignedBEOfTwos | java/src/net/razorvine/pickle/PickleUtils.java:125-169 | Decoding the n-byte big-endian encoding of a value that fits in n bytes gives the value back. |
| TwosComplement.TwosBEOfSigned | java/src/net/razorvine/pickle/PickleUtils.java:125-169 | Encoding the big-endian value of a byte string at its own length gives the same bytes. |
| TwosComplement.FitsIffByteLength | java/src/net/razorvine/pickle/PickleUtils.java:189 | A value fits in n bytes exactly when n is at least `ByteLength(v)`, the length of `toByteArray`. |
| TwosComplement.ByteLengthMinimal | java/src/net/razorvine/pickle/PickleUtils.java:189 | No non-empty byte string shorter than `ByteLength(v)` denotes `v`, in either byte order. The empty string denotes 0 (see `BigIntCodec.ZeroEncodings`). |
| FixedWidthCodec.BytesToInteger | java/src/net/razorvine/pickle/PickleUtils.java:85-105 | With 2 bytes the result is `b[0] + 256*b[1]`, in 0..65535. With 4 bytes it is the signed little-endian value. Any other length gives `InvalidIntLength` with that length. |
| FixedWidthCodec.IntegerToBytes | java/src/net/razorvine/pickle/PickleUtils.java:110-120 | The result is the four bytes of `i`'s two's complement, least significant first. |
| FixedWidthCodec.DoubleBitsToBytes | java/src/net/razorvine/pickle/PickleUtils.java:125-144 | The result is the eight bytes of the bit pattern, most significant first. |
| FixedWidthCodec.SevenBytesUnsigned | java/src/net/razorvine/pickle/PickleUtils.java:151-163 | The accumulator after seven bytes is their unsigned value. That is the signed value plus 2^56 when the top bit is set. |
| FixedWidthCodec.SevenBytesShifted | java/src/net/razorvine/pickle/PickleUtils.java:164 | The wrapping shift of that accumulator is 256 times the signed value of the seven bytes, and it leaves room in a long for the last byte. |
| FixedWidthCodec.BytesToDoubleBits | java/src/net/razorvine/pickle/PickleUtils.java:149-169 | Eight bytes give their signed big-endian 64-bit pattern. Any other length gives `InvalidDoubleLength` with that length. |
| FixedWidthCodec.Int32Fits | java/src/net/razorvine/pickle/PickleUtils.java:110 | Fitting in 4 bytes is exactly the Java `int` range. |
| FixedWidthCodec.Int64Fits | java/src/net/razorvine/pickle/PickleUtils.java:126 | Fitting in 8 bytes is exactly the Java `long` range. |
| FixedWidthCodec.IntegerRoundTrip | java/src/net/razorvine/pickle/PickleUtils.java:85-120 | `bytes_to_integer(integer_to_bytes(i)) == i` for every `int`, over exactly 4 bytes. |
| FixedWidthCodec.BytesRoundTrip | java/src/net/razorvine/pickle/PickleUtils.java:85-120 | `integer_to_bytes(bytes_to_integer(b)) == b` for every 4 bytes, whose value is an `int`. |
| FixedWidthCodec.DoubleBitsRoundTrip | java/src/net/razorvine/pickle/PickleUtils.java:125-169 | `bytes_to_double(double_to_bytes(d))` has `d`'s bit pattern, over exactly 8 bytes. |
| FixedWidthCodec.DoubleBytesRoundTrip | java/src/net/razorvine/pickle/PickleUtils.java:125-169 | `double_to_bytes(bytes_to_double(b)) == b` for every 8 bytes, at the bit level. |
| BigIntCodec.OptimizeBigint | java/src/net/razorvine/pickle/PickleUtils.java:201-221 | It never fails and always keeps the value. It gives a `Long` exactly when the value is within `Long.MIN_VALUE..Long.MAX_VALUE`, and a `BigInteger` otherwise. |
| BigIntCodec.ToByteArray | java/src/net/razorvine/pickle/PickleUtils.java:189 | `toByteArray()` has `ByteLength(v)` bytes, and their big-endian value is `v`. |
| BigIntCodec.ReversedCopy | java/src/net/razorvine/pickle/PickleUtils.java:178-180 | The index loop fills the new array with the input reversed. |
| BigIntCodec.DecodeLong | java/src/net/razorvine/pickle/PickleUtils.java:174-183 | The result is the little-endian two's-complement value, narrowed by `optimizeBigint`. No bytes gives the long 0. |
| BigIntCodec.EncodeLong | java/src/net/razorvine/pickle/PickleUtils.java:188-195 | The result is the `ByteLength(big)`-byte little-endian two's complement of `big`. |
| BigIntCodec.DecodeEncodeLong | java/src/net/razorvine/pickle/PickleUtils.java:174-195 | `decode_long(encode_long(v))` denotes `v` for every integer `v`, and is a `Long` whenever `v` fits one. |
| BigIntCodec.EncodeLongMinimal | java/src/net/razorvine/pickle/PickleUtils.java:188-195 | No shorter non-empty byte string decodes to `v`, and the output is the reverse of `toByteArray()`. |
| BigIntCodec.ZeroEncodings | java/src/net/razorvine/pickle/PickleUtils.java:174-195 | Zero has two decodable forms: no bytes and the single byte 0 both decode to zero, and `encode_long(0)` is the single byte 0. |
| BigIntCodec.EncodeDecodeLong | java/src/net/razorvine/pickle/PickleUtils.java:174-195 | `encode_long(decode_long(s)) == s` for every byte string `s` that is already minimal. |
| BigIntCodec.OptimizeIdempotent | java/src/net/razorvine/pickle/PickleUtils.java:201-221 | Applying `optimizeBigint` to its own result changes nothing. |
| BigIntCodec.DecodeLongBoundaries | java/src/net/razorvine/pickle/PickleUtils.java:174-221 | `Long.MAX_VALUE` and `Long.MIN_VALUE` decode as `Long`. One beyond either decodes as `BigInteger`. |
| EscapeCodec.RawStringFromBytes | java/src/net/razorvine/pickle/PickleUtils.java:228-234 | The k-th char is the value of the k-th byte, taken as 0..255. |
| EscapeCodec.Str2Bytes | java/src/net/razorvine/pickle/PickleUtils.java:239-247 | The result is `RawBytes(str)`: each char narrowed to a byte, or `CharAbove255` if some char exceeds 255. |
| EscapeCodec.RawStringAppend | java/src/net/razorvine/pickle/PickleUtils.java:231 | One more byte appends one char with its value. |
| EscapeCodec.RawStringChars | java/src/net/razorvine/pickle/PickleUtils.java:228-234 | The raw string has the bytes' length, and each char equals its byte, so it is in 0..255. |
| EscapeCodec.RawBytesFailure | java/src/net/razorvine/pickle/PickleUtils.java:239-247 | `str2bytes` fails exactly when some char exceeds 255. Otherwise the output has the string's length. |
| EscapeCodec.RawStringOfRawBytes | java/src/net/razorvine/pickle/PickleUtils.java:228-247 | `rawStringFromBytes(str2bytes(s)) == s` whenever `str2bytes` succeeds. |
| EscapeCodec.RawBytesOfRawString | java/src/net/razorvine/pickle/PickleUtils.java:228-247 | `str2bytes(rawStringFromBytes(b)) == b` for all bytes. |
| EscapeCodec.ParseHex | java/src/net/razorvine/pickle/PickleUtils.java:270 | The strict parse of an escape's digits succeeds exactly on a non-empty string of hex digits. Its value is below 16^n. Otherwise it fails with `NumberFormat`. |
| EscapeCodec.HexValueOfDigits | java/src/net/razorvine/pickle/PickleUtils.java:270 | Writing any `v < 16^n` in n hex digits and parsing them gives `v` back. |
| EscapeCodec.ParseIntRadix16 | java/src/net/razorvine/pickle/PickleUtils.java:270 | `Integer.parseInt(.., 16)` as written: an optional sign, then hex digits. A value outside the `int` range fails, and so does anything else, always with `NumberFormat`. A success is always within the `int` range. |
| EscapeCodec.CharCast | java/src/net/razorvine/pickle/PickleUtils.java:270 | The `(char)` cast keeps the value modulo 2^16, and leaves a value that already fits a `char` unchanged. |
| EscapeCodec.ParseIntRadix16Extends | java/src/net/razorvine/pickle/PickleUtils.java:270 | At widths up to four digits, which the decoders use, `Integer.parseInt(.., 16)` gives what the strict parse gives wherever that succeeds. It accepts more only on digits that start with a sign. |
| EscapeCodec.SignedHexDigitsAccepted | java/src/net/razorvine/pickle/PickleUtils.java:266-271 | As written, the digits `-1` decode to U+FFFF and `-fff` to U+F001. The strict parse rejects both. |
| EscapeCodec.UnescapeAsWritten | java/src/net/razorvine/pickle/PickleUtils.java:252-317 | The decoding with `Integer.parseInt` and the `(char)` cast, as the source writes it. It is never longer than its input, and it fails only by an overrun, a bad number or an invalid escape. |
| EscapeCodec.UnescapeAsWrittenExtends | java/src/net/razorvine/pickle/PickleUtils.java:252-317 | Wherever the strict decoding succeeds, the decoding as written gives the same text. |
| EscapeCodec.SignedEscapeDecoded | java/src/net/razorvine/pickle/PickleUtils.java:266-272 | As written, `decode_escaped("\\x-1")` is U+FFFF and `decode_unicode_escaped("\\u-fff")` is U+F001. The strict decoding fails on both with `NumberFormat`. |
| EscapeCodec.EscapeValueFits | java/src/net/razorvine/pickle/PickleUtils.java:270 | Two or four hex digits always fit a `char`, so the `(char)` cast loses nothing. |
| EscapeCodec.Unescape | java/src/net/razorvine/pickle/PickleUtils.java:252-317 | A decoding is never longer than its input. A failure is an overrun, a bad hex digit or an invalid escape. |
| EscapeCodec.DecodeEscaped | java/src/net/razorvine/pickle/PickleUtils.java:252-281 | The index loop computes `Unescape` in the `\x` dialect, with early return and errors included. |
| EscapeCodec.DecodeUnicodeEscaped | java/src/net/razorvine/pickle/PickleUtils.java:286-317 | The index loop computes `Unescape` in the `\u` dialect, with early return and errors included. |
| EscapeCodec.UnescapeCopies | java/src/net/razorvine/pickle/PickleUtils.java:276-278 | Chars other than `\` are copied in order, in front of whatever the rest decodes to. |
| EscapeCodec.UnescapeWithoutBackslash | java/src/net/razorvine/pickle/PickleUtils.java:253-254 | A string without `\` decodes to itself. |
| EscapeCodec.UnescapeDoubledBackslash | java/src/net/razorvine/pickle/PickleUtils.java:262-265 | `\\` decodes to one `\`, whatever follows. |
| EscapeCodec.UnescapeHexEscape | java/src/net/razorvine/pickle/PickleUtils.java:266-272 | The marker and a full set of hex digits decode to the one char with that value, whatever follows. |
| EscapeCodec.UnescapeBadHex | java/src/net/razorvine/pickle/PickleUtils.java:266-270 | The marker followed by a full width of chars that are not all hex digits fails with `NumberFormat`, whatever follows. |
| EscapeCodec.UnescapeInvalid | java/src/net/razorvine/pickle/PickleUtils.java:273-274 | `\` followed by any char other than `\` and the marker fails with `InvalidEscape`, whatever follows. |
| EscapeCodec.UnescapeTruncated | java/src/net/razorvine/pickle/PickleUtils.java:260-269 | An escape cut off by the end of the string fails with `IndexOutOfBounds` instead of being dropped or shortened. |
| EscapeCodec.UnescapeEscapeChar | java/src/net/razorvine/pickle/PickleUtils.java:252-317 | Decoding one escaped char gives that char and leaves the rest to decode. |
| EscapeCodec.UnescapeEscape | java/src/net/razorvine/pickle/PickleUtils.java:252-317 | Every text the dialect can carry survives `Escape` and then decoding unchanged. This is the round trip through the decoders' inverse. |
| StreamReader.InputStream.Read | java/src/net/razorvine/pickle/PickleUtils.java:37 | Gives the next byte and advances by one, or gives -1 at the end without moving. |
| StreamReader.InputStream.ReadInto | java/src/net/razorvine/pickle/PickleUtils.java:73 | A range outside the buffer throws `IndexOutOfBounds` and changes nothing. At the end of the stream it gives -1 and changes nothing. Otherwise it stores 1..`length` of the next bytes from `offset` on, advances by their count, and leaves the rest of the buffer alone. |
| StreamReader.LineEnd | java/src/net/razorvine/pickle/PickleUtils.java:43-46 | The result is the index of the first LF, or the length if there is none. |
| StreamReader.LineTerminated | java/src/net/razorvine/pickle/PickleUtils.java:43-46 | With an LF at `m` and none before, the line is the first `m` bytes as chars, plus the LF if asked for, and `m+1` bytes are consumed. |
| StreamReader.LineUnterminated | java/src/net/razorvine/pickle/PickleUtils.java:38-41 | A non-empty rest without an LF is one whole line, and all of it is consumed. |
| StreamReader.PickleUtils.constructor | java/src/net/razorvine/pickle/PickleUtils.java:20-22 | The reader keeps the stream it is given as its `input`; every reading method reads from that stream. |
| StreamReader.PickleUtils.ReadLine | java/src/net/razorvine/pickle/PickleUtils.java:34-49 | Returns `Line(rest, includeLF)` and consumes the line and its LF. At the end of the stream it gives `PrematureEndOfFile`. |
| StreamReader.PickleUtils.ReadLineWithoutLF | java/src/net/razorvine/pickle/PickleUtils.java:27-29 | `readline()` is `readline(false)`. |
| StreamReader.PickleUtils.ReadByte | java/src/net/razorvine/pickle/PickleUtils.java:54-57 | Gives the next byte's value 0..255 and advances by one, or the sentinel -1 at the end without moving. |
| StreamReader.PickleUtils.ReadBytesInto | java/src/net/razorvine/pickle/PickleUtils.java:71-79 | If `length` bytes remain, they fill `buffer[offset..offset+length)` and the cursor advances by exactly `length`. Otherwise it gives `ExpectedMoreBytes` after storing every remaining byte. Nothing outside that range changes, and a non-positive `length` reads nothing. A range outside the buffer gives `IndexOutOfBounds` from the first read and changes nothing. |
| StreamReader.PickleUtils.ReadBytes | java/src/net/razorvine/pickle/PickleUtils.java:62-66 | A negative `n` gives `NegativeArraySize`. With enough bytes it gives the next `n` bytes. Otherwise it gives `ExpectedMoreBytes` with the stream drained. |
| StreamReader.LineLF | java/src/net/razorvine/pickle/PickleUtils.java:43-46 | A line holds an LF only as its last char, and never without `includeLF`. |
| StreamReader.LineIsConsumed | java/src/net/razorvine/pickle/PickleUtils.java:34-49 | `readline(true)` returns exactly the bytes it consumes, as chars. |
| StreamReader.LineWithAndWithoutLF | java/src/net/razorvine/pickle/PickleUtils.java:27-49 | Both forms fail exactly on an empty rest. They differ by the trailing LF alone when there is one, and are equal at an unterminated end. |
| StreamReader.LineExamples | java/src/net/razorvine/pickle/PickleUtils.java:34-49 | Examples of a terminated line with and without its LF, an unterminated last line, a line followed by more input, and an empty stream. |

## Left out

- Floating point. `Double.doubleToRawLongBits` and `Double.longBitsToDouble` are not modelled. The two double operations take or give the 64-bit pattern, `Int64`.
- Real I/O. The stream is a byte sequence with a cursor. Blocking, `IOException` raised by the stream itself, and which chunk sizes a real stream picks are not modelled; every chunk size from 1 to `length` is allowed.
- `BigInteger` internals. `new BigInteger(byte[])` and `toByteArray()` are specified as big-endian two's-complement decoding and minimal encoding of an `int`.
- Exception classes. Each kind of throw is an `Error` constructor. Exception messages are not modelled.
- Byte arrays. The codecs, `readbytes`, `str2bytes`, `decode_long` and `encode_long` take or return `seq<Byte>` where Java passes a `byte[]`. The operations that build an array fill a fresh one internally, as Java does, and return its contents. Only `readbytes_into` writes into a caller's array; aliasing between that array and others is not modelled.
- EscapeCodec.ParseIntRadix16: models `Integer.parseInt` on ASCII only. Java's `Character.digit` also accepts other Unicode decimal digits and full-width Latin letters as hex digits; neither the as-written nor the strict parse models them. The `+` sign is accepted as Java 7 and later accept it.
- EscapeCodec.Unescape: uses the strict hex parse. It models the decoders as intended rather than Java's acceptance of a sign; `EscapeCodec.UnescapeAsWritten` is the decoding as written, and Findings has the difference.
- `EscapeCodec.Escape` and `EscapeCodec.EscapeChar` are not part of `PickleUtils`. They are the inverse that the round-trip lemma is stated against.
- The `(short)` cast of `readbyte` is the identity on -1..255, so it is not written out.

## Findings

| source | as written | input that shows it | evidently intended | confidence | as-written member | corrected member |
|---|---|---|---|---|---|---|
| java/src/net/razorvine/pickle/PickleUtils.java:270,306 | The digits after `\x` or `\u` go to `Integer.parseInt(.., 16)`, which accepts a leading `+` or `-`. The `(char)` cast then keeps the low 16 bits of a negative value. | `decode_escaped("\\x-1")` gives U+FFFF, a char no byte escape can denote. `decode_unicode_escaped("\\u-fff")` gives U+F001. | Only hex digits are accepted after the marker; a sign is a `NumberFormatException`. | low, not executed | EscapeCodec.SignedEscapeDecoded | EscapeCodec.ParseHex |
