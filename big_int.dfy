/**
 * The arbitrary-precision integer codec of PickleUtils. Pickle stores a long
 * as its shortest two's-complement form, least significant byte first; Java's
 * `BigInteger` works most significant byte first, so both directions reverse
 * the bytes around a `BigInteger` call. The two `BigInteger` members used are
 * specified, not modelled: `new BigInteger(bytes)` is `SignedBE(bytes)` and
 * `toByteArray()` is `ToByteArray`.
 */
module BigIntCodec {
  import opened JavaTypes
  import opened TwosComplement

  /** The `Number` that `decode_long` returns: a `Long`, or a `BigInteger` too wide for one. */
  datatype Number = Long(long: Int64) | BigInteger(big: int)
  {
    function Value(): int
    {
      match this
      case Long(l) => l
      case BigInteger(b) => b
    }
  }

  /**
   * `optimizeBigint`: the same number, as a `Long` exactly when it is within
   * the range of a Java long.
   */
  function OptimizeBigint(v: int): (n: Number)
    ensures n.Value() == v
    ensures n.Long? <==> MIN_LONG <= v <= MAX_LONG
  {
    if v == 0 then Long(0)
    else if v > 0 then (if v <= MAX_LONG then Long(v) else BigInteger(v))
    else (if v >= MIN_LONG then Long(v) else BigInteger(v))
  }

  /**
   * `BigInteger.toByteArray()`: the shortest big-endian two's-complement
   * bytes of `v`, with room for the sign bit, so never empty (zero is one
   * zero byte).
   */
  function ToByteArray(v: int): (s: seq<Byte>)
    ensures |s| == ByteLength(v) && SignedBE(s) == v
  {
    FitsIffByteLength(v, ByteLength(v));
    SignedBEOfTwos(v, ByteLength(v));
    TwosBE(v, ByteLength(v))
  }

  /** The reversal loop of `decode_long` and `encode_long`: a fresh array filled back to front. */
  method ReversedCopy(data: seq<Byte>) returns (r: seq<Byte>)
    ensures r == Reverse(data)
  {
    var data2 := new Byte[|data|];
    for i := 0 to |data|
      invariant forall k :: 0 <= k < i ==> data2[|data| - k - 1] == data[k]
    {
      data2[|data| - i - 1] := data[i];
    }
    forall j | 0 <= j < |data|
      ensures data2[j] == Reverse(data)[j]
    {
      ReverseAt(data, j);
      assert data2[|data| - (|data| - 1 - j) - 1] == data[|data| - 1 - j];
    }
    r := data2[..];
  }

  /**
   * `decode_long`: the bytes as a little-endian two's-complement number,
   * narrowed to a `Long` when it fits; no bytes is the long zero.
   */
  method DecodeLong(data: seq<Byte>) returns (n: Number)
    ensures n == OptimizeBigint(SignedLE(data))
    ensures |data| == 0 ==> n == Long(0)
  {
    if |data| == 0 {
      return Long(0);
    }
    var data2 := ReversedCopy(data);
    var bigint := SignedBE(data2);  // new BigInteger(data2)
    SignedBEReverse(data2);
    ReverseReverse(data);
    n := OptimizeBigint(bigint);
  }

  /** `encode_long`: the shortest little-endian two's-complement bytes of `big`. */
  method EncodeLong(big: int) returns (r: seq<Byte>)
    ensures r == TwosLE(big, ByteLength(big))
  {
    var data := ToByteArray(big);
    r := ReversedCopy(data);
    ReverseTwosBE(big, ByteLength(big));
  }

  // ----- Properties -----

  /** `decode_long(encode_long(v))` is `v`, as a `Long` whenever it fits one. */
  lemma {:induction false} DecodeEncodeLong(v: int)
    ensures OptimizeBigint(SignedLE(TwosLE(v, ByteLength(v)))) == OptimizeBigint(v)
    ensures SignedLE(TwosLE(v, ByteLength(v))) == v
  {
    FitsIffByteLength(v, ByteLength(v));
    SignedLEOfTwos(v, ByteLength(v));
  }

  /**
   * `encode_long` is minimal: no shorter non-empty byte string decodes to the same
   * number, and it is exactly the reversal of `toByteArray()`.
   */
  lemma EncodeLongMinimal(v: int, s: seq<Byte>)
    requires |s| >= 1 && SignedLE(s) == v
    ensures |TwosLE(v, ByteLength(v))| <= |s|
    ensures TwosLE(v, ByteLength(v)) == Reverse(ToByteArray(v))
  {
    ByteLengthMinimal(v, s);
    ReverseTwosBE(v, ByteLength(v));
  }

  /**
   * Zero is the one value with two decodable forms: `decode_long` reads both
   * no bytes and the single zero byte as zero, and `encode_long(0)` is that
   * single byte.
   */
  lemma ZeroEncodings()
    ensures SignedLE([]) == 0 && SignedLE([0]) == 0
    ensures OptimizeBigint(SignedLE([])) == Long(0)
    ensures TwosLE(0, ByteLength(0)) == [0]
  {
  }

  /**
   * `encode_long(decode_long(s))` gives back every byte string that is
   * already minimal.
   */
  lemma EncodeDecodeLong(s: seq<Byte>)
    requires |s| >= 1 && |s| == ByteLength(SignedLE(s))
    ensures TwosLE(OptimizeBigint(SignedLE(s)).Value(), ByteLength(SignedLE(s))) == s
  {
    TwosLEOfSigned(s);
  }

  /** `optimizeBigint` applied to its own result changes nothing. */
  lemma OptimizeIdempotent(v: int)
    ensures OptimizeBigint(OptimizeBigint(v).Value()) == OptimizeBigint(v)
  {
  }

  /** The long range is decoded as `Long` up to its bounds and as `BigInteger` one beyond. */
  lemma DecodeLongBoundaries()
    ensures OptimizeBigint(SignedLE(TwosLE(MAX_LONG, 8))) == Long(MAX_LONG)
    ensures OptimizeBigint(SignedLE(TwosLE(MIN_LONG, 8))) == Long(MIN_LONG)
    ensures OptimizeBigint(SignedLE(TwosLE(MAX_LONG + 1, 9))) == BigInteger(MAX_LONG + 1)
    ensures OptimizeBigint(SignedLE(TwosLE(MIN_LONG - 1, 9))) == BigInteger(MIN_LONG - 1)
  {
    assert HalfRange(8) == 0x8000_0000_0000_0000;
    assert HalfRange(9) == 0x80_0000_0000_0000_0000;
    SignedLEOfTwos(MAX_LONG, 8);
    SignedLEOfTwos(MIN_LONG, 8);
    SignedLEOfTwos(MAX_LONG + 1, 9);
    SignedLEOfTwos(MIN_LONG - 1, 9);
  }
}
