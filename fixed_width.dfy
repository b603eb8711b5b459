/**
 * The fixed-width codecs of PickleUtils: 2- and 4-byte little-endian
 * integers, and the 8-byte big-endian form of a double. Doubles are handled
 * at the level of their 64-bit pattern (`Double.doubleToRawLongBits`,
 * `Double.longBitsToDouble` are not modelled), so both double operations
 * take or give an `Int64`.
 *
 * Java's bit operations are written out in arithmetic: `x & 0xff` is
 * `x % 0x100`, the arithmetic shift `x >>= 8` is `x / 0x100` (Dafny's
 * division rounds down for a positive divisor, as the shift does), `x <<= 8`
 * is `x * 0x100` (the locals are typed `Int32`/`Int64`, so the verifier
 * checks that no shift overflows, except the one in `BytesToDoubleBits` that
 * does and is wrapped explicitly), and `x |= b & 0xff` right after a shift is
 * `OrLowByte`.
 */
module FixedWidthCodec {
  import opened JavaTypes
  import opened TwosComplement

  /**
   * `bytes_to_integer`: two bytes are an unsigned 16-bit value, four bytes a
   * signed 32-bit value, least significant byte first; any other length throws.
   */
  method BytesToInteger(bytes: seq<Byte>) returns (r: Result<Int32>)
    ensures |bytes| == 2 ==> r == Ok(bytes[0] + 0x100 * (bytes[1] as int))
    ensures |bytes| == 2 ==> 0 <= r.value <= 0xffff
    ensures |bytes| == 4 ==> r == Ok(SignedLE(bytes))
    ensures |bytes| != 2 && |bytes| != 4 ==> r == Err(InvalidIntLength(|bytes|))
  {
    if |bytes| == 2 {
      var i: Int32 := bytes[1];
      i := i * 0x100;
      i := OrLowByte(i, bytes[0]);
      return Ok(i);
    } else if |bytes| == 4 {
      // `int i = bytes[3]` sign-extends the most significant byte
      var i: Int32 := SignedByte(bytes[3]);
      i := i * 0x100;
      i := OrLowByte(i, bytes[2]);
      i := i * 0x100;
      i := OrLowByte(i, bytes[1]);
      i := i * 0x100;
      i := OrLowByte(i, bytes[0]);
      assert bytes[3..] == [bytes[3]];
      assert SignedLE(bytes[2..]) == bytes[2] + 0x100 * SignedLE(bytes[3..]);
      assert SignedLE(bytes[1..]) == bytes[1] + 0x100 * SignedLE(bytes[2..]);
      return Ok(i);
    } else {
      return Err(InvalidIntLength(|bytes|));
    }
  }

  /** `integer_to_bytes`: the four bytes of `i`'s two's complement, least significant first. */
  method IntegerToBytes(i: Int32) returns (b: seq<Byte>)
    ensures b == TwosLE(i, 4)
  {
    var a := new Byte[4];
    var x: int := i;
    a[0] := x % 0x100;
    x := x / 0x100;
    a[1] := x % 0x100;
    x := x / 0x100;
    a[2] := x % 0x100;
    x := x / 0x100;
    a[3] := x % 0x100;
    b := a[..];
  }

  /**
   * `double_to_bytes` on the bit pattern `bits` of the double: its eight
   * bytes, most significant first.
   */
  method DoubleBitsToBytes(bits: Int64) returns (b: seq<Byte>)
    ensures b == TwosBE(bits, 8)
  {
    var a := new Byte[8];
    var x: int := bits;
    a[7] := x % 0x100;
    x := x / 0x100;
    a[6] := x % 0x100;
    x := x / 0x100;
    a[5] := x % 0x100;
    x := x / 0x100;
    a[4] := x % 0x100;
    x := x / 0x100;
    a[3] := x % 0x100;
    x := x / 0x100;
    a[2] := x % 0x100;
    x := x / 0x100;
    a[1] := x % 0x100;
    x := x / 0x100;
    a[0] := x % 0x100;
    b := a[..];
  }

  /** After `x <<= 8` the low byte is clear and the old value sits above it. */
  lemma ShiftClearsLowByte(x: int)
    ensures (x * 0x100) % 0x100 == 0 && (x * 0x100) / 0x100 == x
  {
  }

  /** One more byte on the right of a big-endian string shifts its value up by a byte. */
  lemma SignedBEExtend(s: seq<Byte>, k: nat)
    requires 1 <= k < |s|
    ensures SignedBE(s[..k + 1]) == 0x100 * SignedBE(s[..k]) + s[k]
  {
    assert s[..k + 1][..k] == s[..k];
  }

  /**
   * The first seven bytes, read as an unsigned number, exceed their signed
   * value by 2^56 exactly when the first byte has its top bit set.
   */
  lemma SevenBytesUnsigned(s: seq<Byte>)
    requires |s| == 8
    ensures var u := ((((((s[0] as int) * 0x100 + s[1]) * 0x100 + s[2]) * 0x100 + s[3]) * 0x100 + s[4]) * 0x100 + s[5]) * 0x100 + s[6];
      u == SignedBE(s[..7]) + (if s[0] < 0x80 then 0 else 0x100_0000_0000_0000)
  {
    assert s[..1] == [s[0]];
    SignedBEExtend(s, 1);
    SignedBEExtend(s, 2);
    SignedBEExtend(s, 3);
    SignedBEExtend(s, 4);
    SignedBEExtend(s, 5);
    SignedBEExtend(s, 6);
  }

  /**
   * Shifting those seven bytes up by one more byte, with the wrap-around of a
   * long, leaves the signed value of the seven bytes, shifted.
   */
  lemma SevenBytesShifted(s: seq<Byte>)
    requires |s| == 8
    ensures var u := ((((((s[0] as int) * 0x100 + s[1]) * 0x100 + s[2]) * 0x100 + s[3]) * 0x100 + s[4]) * 0x100 + s[5]) * 0x100 + s[6];
      Wrap64(u * 0x100) == 0x100 * SignedBE(s[..7])
    ensures MIN_LONG <= 0x100 * SignedBE(s[..7]) && 0x100 * SignedBE(s[..7]) + 0xff <= MAX_LONG
  {
    SevenBytesUnsigned(s);
    var v := SignedBE(s[..7]);
    SignedBEReverse(s[..7]);
    SignedLERange(Reverse(s[..7]));
    assert HalfRange(7) == 0x80_0000_0000_0000;
    Wrap64Exact(0x100 * v, if s[0] < 0x80 then 0 else 1);
  }

  /**
   * `bytes_to_double` up to `Double.longBitsToDouble`: eight bytes, most
   * significant first, are the signed 64-bit pattern; any other length throws.
   */
  method BytesToDoubleBits(bytes: seq<Byte>) returns (r: Result<Int64>)
    ensures |bytes| == 8 ==> r == Ok(SignedBE(bytes))
    ensures |bytes| != 8 ==> r == Err(InvalidDoubleLength(|bytes|))
  {
    if |bytes| == 8 {
      var result: Int64 := bytes[0];
      ShiftClearsLowByte(result);
      result := result * 0x100;
      result := OrLowByte(result, bytes[1]);
      ShiftClearsLowByte(result);
      result := result * 0x100;
      result := OrLowByte(result, bytes[2]);
      ShiftClearsLowByte(result);
      result := result * 0x100;
      result := OrLowByte(result, bytes[3]);
      ShiftClearsLowByte(result);
      result := result * 0x100;
      result := OrLowByte(result, bytes[4]);
      ShiftClearsLowByte(result);
      result := result * 0x100;
      result := OrLowByte(result, bytes[5]);
      ShiftClearsLowByte(result);
      result := result * 0x100;
      result := OrLowByte(result, bytes[6]);
      SevenBytesShifted(bytes);
      // this shift moves the first byte into the sign bit of the long: it wraps
      result := Wrap64(result * 0x100);
      ShiftClearsLowByte(SignedBE(bytes[..7]));
      result := OrLowByte(result, bytes[7]);
      SignedBEExtend(bytes, 7);
      assert bytes[..8] == bytes;
      return Ok(result);
    } else {
      return Err(InvalidDoubleLength(|bytes|));
    }
  }

  // ----- Properties of the specifications -----

  lemma Int32Fits(i: int)
    ensures Fits(i, 4) <==> MIN_INT <= i <= MAX_INT
  {
    assert HalfRange(4) == 0x8000_0000;
  }

  lemma Int64Fits(x: int)
    ensures Fits(x, 8) <==> MIN_LONG <= x <= MAX_LONG
  {
    assert HalfRange(8) == 0x8000_0000_0000_0000;
  }

  /** `bytes_to_integer(integer_to_bytes(i)) == i` for every Java int. */
  lemma IntegerRoundTrip(i: Int32)
    ensures |TwosLE(i, 4)| == 4 && SignedLE(TwosLE(i, 4)) == i
  {
    Int32Fits(i);
    SignedLEOfTwos(i, 4);
  }

  /** `integer_to_bytes(bytes_to_integer(b)) == b` for every four bytes. */
  lemma BytesRoundTrip(b: seq<Byte>)
    requires |b| == 4
    ensures MIN_INT <= SignedLE(b) <= MAX_INT && TwosLE(SignedLE(b), 4) == b
  {
    SignedLERange(b);
    Int32Fits(SignedLE(b));
    TwosLEOfSigned(b);
  }

  /** `bytes_to_double(double_to_bytes(d))` has the bit pattern of `d`. */
  lemma DoubleBitsRoundTrip(bits: Int64)
    ensures |TwosBE(bits, 8)| == 8 && SignedBE(TwosBE(bits, 8)) == bits
  {
    Int64Fits(bits);
    SignedBEOfTwos(bits, 8);
  }

  /** `double_to_bytes(bytes_to_double(b))` gives back any eight bytes `b`, at the bit level. */
  lemma DoubleBytesRoundTrip(b: seq<Byte>)
    requires |b| == 8
    ensures MIN_LONG <= SignedBE(b) <= MAX_LONG && TwosBE(SignedBE(b), 8) == b
  {
    SignedBEReverse(b);
    SignedLERange(Reverse(b));
    Int64Fits(SignedBE(b));
    TwosBEOfSigned(b);
  }
}
