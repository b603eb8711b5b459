/**
 * The Java value types the byte codec works on, and the error outcomes of its
 * operations. Java's `byte` is signed; this model stores every byte as its
 * unsigned octet value (what `b & 0xff` yields), and writes out every place
 * where the code relies on sign extension.
 */
module JavaTypes {

  /** A Java `byte`, viewed as its octet value `b & 0xff`. */
  type Byte = b: int | 0 <= b < 0x100

  /** A Java `char`: one UTF-16 code unit (surrogates included). */
  type Char16 = c: int | 0 <= c < 0x1_0000

  /** A Java `String`: a sequence of UTF-16 code units. */
  type JString = seq<Char16>

  const MIN_INT: int := -0x8000_0000
  const MAX_INT: int := 0x7fff_ffff
  const MIN_LONG: int := -0x8000_0000_0000_0000
  const MAX_LONG: int := 0x7fff_ffff_ffff_ffff

  /** A Java `int`. */
  type Int32 = x: int | MIN_INT <= x <= MAX_INT

  /** A Java `long`. */
  type Int64 = x: int | MIN_LONG <= x <= MAX_LONG

  /** The value Java gives to the signed byte with octet `b`: `(int) bytes[k]`. */
  function SignedByte(b: Byte): (v: int)
    ensures -0x80 <= v < 0x80
    ensures v % 0x100 == b
  {
    if b < 0x80 then b else b - 0x100
  }

  /** Java's `long` arithmetic: `x` reduced to 64-bit two's complement. */
  function Wrap64(x: int): (w: Int64)
    ensures (w - x) % 0x1_0000_0000_0000_0000 == 0
  {
    var m := x % 0x1_0000_0000_0000_0000;
    if m <= MAX_LONG then m else m - 0x1_0000_0000_0000_0000
  }

  /** A long plus a multiple of 2^64 wraps back to the long. */
  lemma Wrap64Exact(x: int, k: int)
    requires MIN_LONG <= x <= MAX_LONG
    ensures Wrap64(x + k * 0x1_0000_0000_0000_0000) == x
  {
    var m := (x + k * 0x1_0000_0000_0000_0000) % 0x1_0000_0000_0000_0000;
    assert m == x % 0x1_0000_0000_0000_0000;
  }

  /**
   * `x | b` for a value whose low eight bits are clear (as they are right
   * after `x <<= 8`): the byte lands in the low eight bits, the rest of `x` is
   * untouched.
   */
  function OrLowByte(x: int, b: Byte): (r: int)
    requires x % 0x100 == 0
    ensures r % 0x100 == b && r / 0x100 == x / 0x100
  {
    x + b
  }

  /** The exceptions the codec raises, one constructor per throw site kind. */
  datatype Error =
    | PrematureEndOfFile                // IOException from readline at start of line
    | ExpectedMoreBytes                 // IOException from readbytes_into
    | NegativeArraySize(size: int)      // `new byte[n]` with n < 0
    | InvalidIntLength(length: nat)     // PickleException from bytes_to_integer
    | InvalidDoubleLength(length: nat)  // PickleException from bytes_to_double
    | InvalidEscape                     // PickleException from the escape decoders
    | IndexOutOfBounds                  // from charAt past the end, or a read range outside the buffer
    | NumberFormat                      // NumberFormatException from Integer.parseInt
    | CharAbove255                      // UnsupportedEncodingException from str2bytes

  /** The value of a call that returns or throws. */
  datatype Result<+T> = Ok(value: T) | Err(error: Error)

  /** The outcome of a `void` call that may throw. */
  datatype Outcome = Pass | Fail(error: Error)
}
