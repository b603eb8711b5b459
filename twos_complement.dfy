/**
 * Two's-complement byte strings, the vocabulary every codec in this model is
 * specified in: the signed value of a byte string read least significant byte
 * first (little-endian) or most significant byte first (big-endian), the
 * n-byte encodings of an integer in both orders, and the shortest length that
 * can hold an integer, which is what `BigInteger.toByteArray` produces.
 */
module TwosComplement {
  import opened JavaTypes

  /** 256^n. */
  function Pow256(n: nat): (p: int)
    ensures p >= 1
  {
    if n == 0 then 1 else 0x100 * Pow256(n - 1)
  }

  /** 2^(8n - 1): the magnitude bound of an n-byte two's-complement value. */
  function HalfRange(n: nat): int
    requires n >= 1
  {
    0x80 * Pow256(n - 1)
  }

  /** `x` is representable in `n` bytes of two's complement. */
  predicate Fits(x: int, n: nat)
  {
    n >= 1 && -HalfRange(n) <= x < HalfRange(n)
  }

  /** The signed value of `s`, least significant byte first; the last byte carries the sign. */
  function SignedLE(s: seq<Byte>): int
  {
    if |s| == 0 then 0
    else if |s| == 1 then SignedByte(s[0])
    else s[0] + 0x100 * SignedLE(s[1..])
  }

  /** The signed value of `s`, most significant byte first; the first byte carries the sign. */
  function SignedBE(s: seq<Byte>): int
  {
    if |s| == 0 then 0
    else if |s| == 1 then SignedByte(s[0])
    else 0x100 * SignedBE(s[..|s| - 1]) + s[|s| - 1]
  }

  /** The low `n` bytes of the two's complement of `x`, least significant first. */
  function TwosLE(x: int, n: nat): (s: seq<Byte>)
    ensures |s| == n
    decreases n
  {
    if n == 0 then [] else [x % 0x100] + TwosLE(x / 0x100, n - 1)
  }

  /** The low `n` bytes of the two's complement of `x`, most significant first. */
  function TwosBE(x: int, n: nat): (s: seq<Byte>)
    ensures |s| == n
    decreases n
  {
    if n == 0 then [] else TwosBE(x / 0x100, n - 1) + [x % 0x100]
  }

  function Reverse(s: seq<Byte>): (r: seq<Byte>)
    ensures |r| == |s|
  {
    if s == [] then [] else [s[|s| - 1]] + Reverse(s[..|s| - 1])
  }

  /** The shortest length in which `v` fits as two's complement, never less than one byte. */
  function ByteLength(v: int): (n: nat)
    ensures n >= 1
    decreases if v < 0 then -v else v
  {
    if -0x80 <= v < 0x80 then 1 else 1 + ByteLength(v / 0x100)
  }

  // ----- Reversal -----

  lemma {:induction false} ReverseAt(s: seq<Byte>, k: nat)
    requires k < |s|
    ensures Reverse(s)[k] == s[|s| - 1 - k]
  {
    if k > 0 {
      ReverseAt(s[..|s| - 1], k - 1);
    }
  }

  lemma ReverseReverse(s: seq<Byte>)
    ensures Reverse(Reverse(s)) == s
  {
    var r := Reverse(Reverse(s));
    forall k | 0 <= k < |s|
      ensures r[k] == s[k]
    {
      ReverseAt(Reverse(s), k);
      ReverseAt(s, |s| - 1 - k);
    }
  }

  // ----- Ranges -----

  /** Dropping the low byte of an (n+1)-byte value leaves an n-byte value, and only then. */
  lemma FitsShift(x: int, n: nat)
    requires n >= 1
    ensures Fits(x, n + 1) <==> Fits(x / 0x100, n)
  {
    assert HalfRange(n + 1) == 0x100 * HalfRange(n);
  }

  /** Every non-empty byte string denotes a value in the range of its length. */
  lemma {:induction false} SignedLERange(s: seq<Byte>)
    requires |s| >= 1
    ensures Fits(SignedLE(s), |s|)
  {
    if |s| > 1 {
      SignedLERange(s[1..]);
      assert HalfRange(|s|) == 0x100 * HalfRange(|s| - 1);
    }
  }

  // ----- Round trips at a fixed length -----

  /** Decoding the n-byte little-endian encoding of a value that fits gives the value back. */
  lemma {:induction false} SignedLEOfTwos(x: int, n: nat)
    requires Fits(x, n)
    ensures SignedLE(TwosLE(x, n)) == x
    decreases n
  {
    if n > 1 {
      FitsShift(x, n - 1);
      SignedLEOfTwos(x / 0x100, n - 1);
      assert TwosLE(x, n)[1..] == TwosLE(x / 0x100, n - 1);
    }
  }

  /** Encoding the value of a byte string at its own length gives the same bytes. */
  lemma {:induction false} TwosLEOfSigned(s: seq<Byte>)
    requires |s| >= 1
    ensures TwosLE(SignedLE(s), |s|) == s
  {
    if |s| > 1 {
      TwosLEOfSigned(s[1..]);
      var v := SignedLE(s);
      assert v % 0x100 == s[0] && v / 0x100 == SignedLE(s[1..]);
    }
  }

  /** The big-endian value of a byte string is the little-endian value of its reversal. */
  lemma {:induction false} SignedBEReverse(s: seq<Byte>)
    ensures SignedBE(s) == SignedLE(Reverse(s))
  {
    if |s| > 1 {
      SignedBEReverse(s[..|s| - 1]);
      assert Reverse(s)[1..] == Reverse(s[..|s| - 1]);
    }
  }

  /** The big-endian encoding is the reversal of the little-endian one. */
  lemma {:induction false} ReverseTwosBE(x: int, n: nat)
    ensures Reverse(TwosBE(x, n)) == TwosLE(x, n)
    decreases n
  {
    if n > 0 {
      ReverseTwosBE(x / 0x100, n - 1);
      var s := TwosBE(x, n);
      assert s[..|s| - 1] == TwosBE(x / 0x100, n - 1);
    }
  }

  /** Decoding the n-byte big-endian encoding of a value that fits gives the value back. */
  lemma SignedBEOfTwos(x: int, n: nat)
    requires Fits(x, n)
    ensures SignedBE(TwosBE(x, n)) == x
  {
    SignedBEReverse(TwosBE(x, n));
    ReverseTwosBE(x, n);
    SignedLEOfTwos(x, n);
  }

  /** Encoding the big-endian value of a byte string at its own length gives the same bytes. */
  lemma TwosBEOfSigned(s: seq<Byte>)
    requires |s| >= 1
    ensures TwosBE(SignedBE(s), |s|) == s
  {
    var v := SignedBE(s);
    SignedBEReverse(s);
    TwosLEOfSigned(Reverse(s));
    ReverseTwosBE(v, |s|);
    ReverseReverse(TwosBE(v, |s|));
    ReverseReverse(s);
  }

  // ----- Minimal length -----

  /** `ByteLength(v)` is exactly the least length at which `v` fits. */
  lemma {:induction false} FitsIffByteLength(v: int, n: nat)
    requires n >= 1
    ensures Fits(v, n) <==> ByteLength(v) <= n
    decreases n
  {
    if n > 1 {
      FitsShift(v, n - 1);
      FitsIffByteLength(v / 0x100, n - 1);
    }
  }

  /** No non-empty byte string shorter than `ByteLength(v)` denotes `v`, in either byte order. */
  lemma ByteLengthMinimal(v: int, s: seq<Byte>)
    requires |s| >= 1
    requires SignedLE(s) == v || SignedBE(s) == v
    ensures |s| >= ByteLength(v)
  {
    SignedLERange(s);
    SignedBEReverse(s);
    SignedLERange(Reverse(s));
    FitsIffByteLength(v, |s|);
  }
}
