/**
 * The text conversions of PickleUtils: the raw byte/char conversions
 * `rawStringFromBytes` and `str2bytes`, which map byte value v to char value v
 * and back, and the two backslash-escape decoders used for string literals in
 * text opcodes: `decode_escaped` (`\\` and `\xHH`) and
 * `decode_unicode_escaped` (`\\` and `\uHHHH`). The decoders share one
 * specification, `Unescape`, parameterised by the escape dialect.
 */
module EscapeCodec {
  import opened JavaTypes

  const BACKSLASH: Char16 := 0x5C
  const LOWER_X: Char16 := 0x78
  const LOWER_U: Char16 := 0x75
  const PLUS: Char16 := 0x2B
  const MINUS: Char16 := 0x2D

  // ----- Raw conversion between bytes and chars -----

  /** The string whose k-th char has the value of the k-th byte. */
  function RawString(data: seq<Byte>): JString
  {
    seq(|data|, k requires 0 <= k < |data| => data[k] as Char16)
  }

  /** The bytes whose values are the chars of `str`; no such bytes when a char exceeds 255. */
  function RawBytes(str: JString): Result<seq<Byte>>
  {
    if forall k :: 0 <= k < |str| ==> str[k] <= 0xff
    then Ok(seq(|str|, k requires 0 <= k < |str| && str[k] <= 0xff => str[k] as Byte))
    else Err(CharAbove255)
  }

  /** `rawStringFromBytes`: every byte widened to the char with the same value. */
  method RawStringFromBytes(data: seq<Byte>) returns (s: JString)
    ensures s == RawString(data)
  {
    var str: JString := [];
    for i := 0 to |data|
      invariant |str| == i
      invariant forall k :: 0 <= k < i ==> str[k] == data[k]
    {
      str := str + [data[i] as Char16];
    }
    s := str;
  }

  /** `str2bytes`: every char narrowed to a byte, which fails on the first char above 255. */
  method Str2Bytes(str: JString) returns (r: Result<seq<Byte>>)
    ensures r == RawBytes(str)
  {
    var b := new Byte[|str|];
    for i := 0 to |str|
      invariant forall k :: 0 <= k < i ==> str[k] <= 0xff && b[k] == str[k]
    {
      var c := str[i];
      if c > 0xff {
        return Err(CharAbove255);
      }
      b[i] := c as Byte;
    }
    assert b[..] == RawBytes(str).value;
    return Ok(b[..]);
  }

  lemma RawStringAppend(data: seq<Byte>, b: Byte)
    ensures RawString(data + [b]) == RawString(data) + [b as Char16]
  {
  }

  /** Raw strings never hold a char above 255, and keep the length and values of the bytes. */
  lemma RawStringChars(data: seq<Byte>)
    ensures |RawString(data)| == |data|
    ensures forall k :: 0 <= k < |data| ==> RawString(data)[k] == data[k] <= 0xff
  {
  }

  /** `str2bytes` fails exactly when some char exceeds 255, and otherwise keeps length and values. */
  lemma RawBytesFailure(str: JString)
    ensures RawBytes(str).Err? <==> exists k :: 0 <= k < |str| && str[k] > 0xff
    ensures RawBytes(str).Ok? ==> |RawBytes(str).value| == |str|
  {
  }

  /** `rawStringFromBytes(str2bytes(s)) == s` whenever `str2bytes` succeeds. */
  lemma RawStringOfRawBytes(str: JString)
    requires RawBytes(str).Ok?
    ensures RawString(RawBytes(str).value) == str
  {
  }

  /** `str2bytes(rawStringFromBytes(b)) == b` for all bytes. */
  lemma RawBytesOfRawString(data: seq<Byte>)
    ensures RawBytes(RawString(data)) == Ok(data)
  {
    assert RawBytes(RawString(data)).value == data;
  }

  // ----- Hexadecimal digits -----

  function Pow16(n: nat): (p: int)
    ensures p >= 1
  {
    if n == 0 then 1 else 16 * Pow16(n - 1)
  }

  /** An ASCII hexadecimal digit, either case. */
  predicate IsHexDigit(c: Char16)
  {
    0x30 <= c <= 0x39 || 0x41 <= c <= 0x46 || 0x61 <= c <= 0x66
  }

  predicate AllHexDigits(ds: JString)
  {
    forall k :: 0 <= k < |ds| ==> IsHexDigit(ds[k])
  }

  function DigitValue(c: Char16): (d: nat)
    requires IsHexDigit(c)
    ensures d < 16
  {
    if c <= 0x39 then c - 0x30 else if c <= 0x46 then c - 0x41 + 10 else c - 0x61 + 10
  }

  /** The number the digits denote, most significant digit first. */
  function HexValue(ds: JString): (v: nat)
    requires AllHexDigits(ds)
    ensures v < Pow16(|ds|)
  {
    if ds == [] then 0 else 16 * HexValue(ds[..|ds| - 1]) + DigitValue(ds[|ds| - 1])
  }

  /**
   * The hex parse of an escape's digits: non-empty, hexadecimal digits only.
   * (`Integer.parseInt(.., 16)` additionally takes a leading sign; see
   * `ParseIntRadix16`.)
   */
  function ParseHex(ds: JString): (r: Result<nat>)
    ensures r.Ok? <==> |ds| > 0 && AllHexDigits(ds)
    ensures r.Ok? ==> r.value < Pow16(|ds|)
    ensures r.Err? ==> r.error == NumberFormat
  {
    if |ds| > 0 && AllHexDigits(ds) then Ok(HexValue(ds)) else Err(NumberFormat)
  }

  /** The lower-case hex digit for `d`. */
  function HexChar(d: nat): (c: Char16)
    requires d < 16
    ensures IsHexDigit(c) && DigitValue(c) == d
  {
    if d < 10 then 0x30 + d else 0x61 + d - 10
  }

  /** `v` in `n` hex digits, most significant first. */
  function HexDigits(v: nat, n: nat): (ds: JString)
    ensures |ds| == n && AllHexDigits(ds)
  {
    if n == 0 then [] else HexDigits(v / 16, n - 1) + [HexChar(v % 16)]
  }

  lemma {:induction false} HexValueOfDigits(v: nat, n: nat)
    requires v < Pow16(n)
    ensures HexValue(HexDigits(v, n)) == v
  {
    if n > 0 {
      HexValueOfDigits(v / 16, n - 1);
      var ds := HexDigits(v, n);
      assert ds[..|ds| - 1] == HexDigits(v / 16, n - 1);
    }
  }

  // ----- Integer.parseInt as written -----

  /**
   * `Integer.parseInt(ds, 16)` on ASCII input: an optional `+` (accepted
   * since Java 7) or `-`, then at least one hex digit, and a value within the
   * range of an `int`.
   */
  function ParseIntRadix16(ds: JString): (r: Result<int>)
    ensures r.Err? ==> r.error == NumberFormat
    ensures r.Ok? ==> MIN_INT <= r.value <= MAX_INT
  {
    if |ds| >= 2 && (ds[0] == PLUS || ds[0] == MINUS) && AllHexDigits(ds[1..]) then
      var v := if ds[0] == MINUS then -(HexValue(ds[1..]) as int) else HexValue(ds[1..]);
      if MIN_INT <= v <= MAX_INT then Ok(v) else Err(NumberFormat)
    else if |ds| >= 1 && AllHexDigits(ds) then
      var v := HexValue(ds);
      if v <= MAX_INT then Ok(v) else Err(NumberFormat)
    else
      Err(NumberFormat)
  }

  /** The `(char)` cast: the value reduced to sixteen bits, unchanged when it already fits. */
  function CharCast(v: int): (c: Char16)
    ensures (c - v) % 0x1_0000 == 0
    ensures 0 <= v < 0x1_0000 ==> c == v
  {
    v % 0x1_0000
  }

  /**
   * At the widths the decoders use, `Integer.parseInt` gives what the strict
   * parse gives wherever that succeeds; it accepts more exactly on digits that
   * start with a sign.
   */
  lemma ParseIntRadix16Extends(ds: JString)
    ensures ParseHex(ds).Ok? && |ds| <= 4 ==> ParseIntRadix16(ds) == Ok(ParseHex(ds).value)
    ensures ParseIntRadix16(ds).Ok? && ParseHex(ds).Err? ==> ds[0] == PLUS || ds[0] == MINUS
  {
    if ParseHex(ds).Ok? && |ds| <= 4 {
      assert Pow16(4) == 0x1_0000;
      assert |ds| == 1 || |ds| == 2 || |ds| == 3 || |ds| == 4;
      assert Pow16(|ds|) <= 0x1_0000;
    }
  }

  /**
   * As written, `\x-1` is accepted: `Integer.parseInt("-1", 16)` is -1, and
   * the cast turns it into U+FFFF, a char no byte escape should produce;
   * `\u-fff` likewise gives U+F001. The strict parse rejects both.
   */
  lemma SignedHexDigitsAccepted()
    ensures ParseIntRadix16([MINUS, 0x31]) == Ok(-1) && CharCast(-1) == 0xffff
    ensures ParseHex([MINUS, 0x31]) == Err(NumberFormat)
    ensures ParseIntRadix16([MINUS, 0x66, 0x66, 0x66]) == Ok(-0xfff) && CharCast(-0xfff) == 0xf001
    ensures ParseHex([MINUS, 0x66, 0x66, 0x66]) == Err(NumberFormat)
  {
    assert [MINUS, 0x31][1..] == [0x31];
    assert HexValue([0x31]) == 1 by {
      assert [0x31][..0] == [];
    }
    var fff: JString := [0x66, 0x66, 0x66];
    assert [MINUS, 0x66, 0x66, 0x66][1..] == fff;
    assert HexValue(fff) == 0xfff by {
      assert fff[..2] == [0x66, 0x66];
      assert fff[..2][..1] == [0x66];
      assert fff[..2][..1][..0] == [];
    }
  }

  // ----- The escape grammar -----

  /** The two dialects: `\xHH` for `decode_escaped`, `\uHHHH` for `decode_unicode_escaped`. */
  datatype Dialect = ByteEscapes | UnicodeEscapes
  {
    /** The char after `\` that starts a hex escape. */
    function Marker(): Char16
    {
      if ByteEscapes? then LOWER_X else LOWER_U
    }

    /** The number of hex digits after the marker. */
    function Width(): nat
    {
      if ByteEscapes? then 2 else 4
    }
  }

  lemma EscapeValueFits(d: Dialect)
    ensures Pow16(d.Width()) <= 0x1_0000
  {
    assert Pow16(4) == 0x1_0000;
  }

  /** `p` in front of a decoded string; errors pass through. */
  function Prepend(p: JString, r: Result<JString>): Result<JString>
  {
    match r
    case Ok(t) => Ok(p + t)
    case Err(e) => Err(e)
  }

  lemma PrependNothing(r: Result<JString>)
    ensures Prepend([], r) == r
  {
    if r.Ok? {
      assert [] + r.value == r.value;
    }
  }

  lemma PrependPrepend(p: JString, q: JString, r: Result<JString>)
    ensures Prepend(p, Prepend(q, r)) == Prepend(p + q, r)
  {
    if r.Ok? {
      assert p + (q + r.value) == (p + q) + r.value;
    }
  }

  /**
   * The decoding of `s` in dialect `d`, left to right: a char other than `\`
   * is copied; `\\` is one `\`; the marker and its hex digits are the char
   * with that value; `\` followed by anything else is an invalid escape; an
   * escape cut off by the end of the string reads past its end.
   */
  function Unescape(s: JString, d: Dialect): (r: Result<JString>)
    ensures r.Ok? ==> |r.value| <= |s|
    ensures r.Err? ==> r.error in {IndexOutOfBounds, NumberFormat, InvalidEscape}
    decreases |s|
  {
    if s == [] then Ok([])
    else if s[0] != BACKSLASH then Prepend([s[0]], Unescape(s[1..], d))
    else if |s| < 2 then Err(IndexOutOfBounds)
    else if s[1] == BACKSLASH then Prepend([BACKSLASH], Unescape(s[2..], d))
    else if s[1] == d.Marker() then
      if |s| < 2 + d.Width() then Err(IndexOutOfBounds)
      else
        var v := ParseHex(s[2..2 + d.Width()]);
        if v.Err? then Err(v.error)
        else
          EscapeValueFits(d);
          Prepend([v.value as Char16], Unescape(s[2 + d.Width()..], d))
    else Err(InvalidEscape)
  }

  /**
   * The decoding as the source writes it: like `Unescape`, but the digits go
   * through `Integer.parseInt(.., 16)` and the `(char)` cast.
   */
  function UnescapeAsWritten(s: JString, d: Dialect): (r: Result<JString>)
    ensures r.Ok? ==> |r.value| <= |s|
    ensures r.Err? ==> r.error in {IndexOutOfBounds, NumberFormat, InvalidEscape}
    decreases |s|
  {
    if s == [] then Ok([])
    else if s[0] != BACKSLASH then Prepend([s[0]], UnescapeAsWritten(s[1..], d))
    else if |s| < 2 then Err(IndexOutOfBounds)
    else if s[1] == BACKSLASH then Prepend([BACKSLASH], UnescapeAsWritten(s[2..], d))
    else if s[1] == d.Marker() then
      if |s| < 2 + d.Width() then Err(IndexOutOfBounds)
      else
        var v := ParseIntRadix16(s[2..2 + d.Width()]);
        if v.Err? then Err(v.error)
        else Prepend([CharCast(v.value)], UnescapeAsWritten(s[2 + d.Width()..], d))
    else Err(InvalidEscape)
  }

  /** Wherever the strict decoding succeeds, the decoding as written gives the same text. */
  lemma {:induction false} UnescapeAsWrittenExtends(s: JString, d: Dialect)
    requires Unescape(s, d).Ok?
    ensures UnescapeAsWritten(s, d) == Unescape(s, d)
    decreases |s|
  {
    if s == [] {
    } else if s[0] != BACKSLASH {
      UnescapeAsWrittenExtends(s[1..], d);
    } else if s[1] == BACKSLASH {
      UnescapeAsWrittenExtends(s[2..], d);
    } else {
      var ds := s[2..2 + d.Width()];
      ParseIntRadix16Extends(ds);
      EscapeValueFits(d);
      UnescapeAsWrittenExtends(s[2 + d.Width()..], d);
    }
  }

  /**
   * As written, `decode_escaped("\\x-1")` is U+FFFF and
   * `decode_unicode_escaped("\\u-fff")` is U+F001, where the strict
   * decoding rejects both digit strings.
   */
  lemma SignedEscapeDecoded()
    ensures UnescapeAsWritten([BACKSLASH, LOWER_X, MINUS, 0x31], ByteEscapes) == Ok([0xffff])
    ensures Unescape([BACKSLASH, LOWER_X, MINUS, 0x31], ByteEscapes) == Err(NumberFormat)
    ensures UnescapeAsWritten([BACKSLASH, LOWER_U, MINUS, 0x66, 0x66, 0x66], UnicodeEscapes) == Ok([0xf001])
    ensures Unescape([BACKSLASH, LOWER_U, MINUS, 0x66, 0x66, 0x66], UnicodeEscapes) == Err(NumberFormat)
  {
    SignedHexDigitsAccepted();
    var x: JString := [BACKSLASH, LOWER_X, MINUS, 0x31];
    assert x[2..4] == [MINUS, 0x31];
    assert x[4..] == [];
    assert [0xffff] + [] == [0xffff as Char16];
    var u: JString := [BACKSLASH, LOWER_U, MINUS, 0x66, 0x66, 0x66];
    assert u[2..6] == [MINUS, 0x66, 0x66, 0x66];
    assert u[6..] == [];
    assert [0xf001] + [] == [0xf001 as Char16];
  }

  /** `decode_escaped`: the `\\` and `\xHH` escapes of `str` decoded. */
  method DecodeEscaped(str: JString) returns (r: Result<JString>)
    ensures r == Unescape(str, ByteEscapes)
  {
    if BACKSLASH !in str {
      UnescapeWithoutBackslash(str, ByteEscapes);
      return Ok(str);
    }
    var sb: JString := [];
    var i := 0;
    assert str[0..] == str;
    PrependNothing(Unescape(str, ByteEscapes));
    while i < |str|
      invariant 0 <= i <= |str|
      invariant Unescape(str, ByteEscapes) == Prepend(sb, Unescape(str[i..], ByteEscapes))
    {
      ghost var rest := str[i..];
      var c := str[i];
      if c == BACKSLASH {
        i := i + 1;
        if i >= |str| {
          return Err(IndexOutOfBounds);
        }
        var c2 := str[i];
        if c2 == BACKSLASH {
          PrependPrepend(sb, [c], Unescape(rest[2..], ByteEscapes));
          assert rest[2..] == str[i + 1..];
          sb := sb + [c];
        } else if c2 == LOWER_X {
          i := i + 1;
          if i >= |str| {
            return Err(IndexOutOfBounds);
          }
          var h1 := str[i];
          i := i + 1;
          if i >= |str| {
            return Err(IndexOutOfBounds);
          }
          var h2 := str[i];
          assert rest[2..4] == [h1, h2];
          var v := ParseHex([h1, h2]);
          if v.Err? {
            return Err(v.error);
          }
          assert Pow16(2) == 0x100;
          PrependPrepend(sb, [v.value as Char16], Unescape(rest[4..], ByteEscapes));
          assert rest[4..] == str[i + 1..];
          sb := sb + [v.value as Char16];
        } else {
          return Err(InvalidEscape);
        }
      } else {
        PrependPrepend(sb, [c], Unescape(rest[1..], ByteEscapes));
        assert rest[1..] == str[i + 1..];
        sb := sb + [c];
      }
      i := i + 1;
    }
    assert sb + [] == sb;
    return Ok(sb);
  }

  /** `decode_unicode_escaped`: the `\\` and `\uHHHH` escapes of `str` decoded. */
  method DecodeUnicodeEscaped(str: JString) returns (r: Result<JString>)
    ensures r == Unescape(str, UnicodeEscapes)
  {
    if BACKSLASH !in str {
      UnescapeWithoutBackslash(str, UnicodeEscapes);
      return Ok(str);
    }
    var sb: JString := [];
    var i := 0;
    assert str[0..] == str;
    PrependNothing(Unescape(str, UnicodeEscapes));
    while i < |str|
      invariant 0 <= i <= |str|
      invariant Unescape(str, UnicodeEscapes) == Prepend(sb, Unescape(str[i..], UnicodeEscapes))
    {
      ghost var rest := str[i..];
      var c := str[i];
      if c == BACKSLASH {
        i := i + 1;
        if i >= |str| {
          return Err(IndexOutOfBounds);
        }
        var c2 := str[i];
        if c2 == BACKSLASH {
          PrependPrepend(sb, [c], Unescape(rest[2..], UnicodeEscapes));
          assert rest[2..] == str[i + 1..];
          sb := sb + [c];
        } else if c2 == LOWER_U {
          i := i + 1;
          if i >= |str| {
            return Err(IndexOutOfBounds);
          }
          var h1 := str[i];
          i := i + 1;
          if i >= |str| {
            return Err(IndexOutOfBounds);
          }
          var h2 := str[i];
          i := i + 1;
          if i >= |str| {
            return Err(IndexOutOfBounds);
          }
          var h3 := str[i];
          i := i + 1;
          if i >= |str| {
            return Err(IndexOutOfBounds);
          }
          var h4 := str[i];
          assert rest[2..6] == [h1, h2, h3, h4];
          var v := ParseHex([h1, h2, h3, h4]);
          if v.Err? {
            return Err(v.error);
          }
          EscapeValueFits(UnicodeEscapes);
          PrependPrepend(sb, [v.value as Char16], Unescape(rest[6..], UnicodeEscapes));
          assert rest[6..] == str[i + 1..];
          sb := sb + [v.value as Char16];
        } else {
          return Err(InvalidEscape);
        }
      } else {
        PrependPrepend(sb, [c], Unescape(rest[1..], UnicodeEscapes));
        assert rest[1..] == str[i + 1..];
        sb := sb + [c];
      }
      i := i + 1;
    }
    assert sb + [] == sb;
    return Ok(sb);
  }

  // ----- Properties of the escape grammar -----

  /** Chars other than `\` are copied in order, in front of whatever follows. */
  lemma {:induction false} UnescapeCopies(p: JString, s: JString, d: Dialect)
    requires BACKSLASH !in p
    ensures Unescape(p + s, d) == Prepend(p, Unescape(s, d))
    decreases |p|
  {
    if p != [] {
      assert (p + s)[1..] == p[1..] + s;
      UnescapeCopies(p[1..], s, d);
      PrependPrepend([p[0]], p[1..], Unescape(s, d));
      assert [p[0]] + p[1..] == p;
    } else {
      assert p + s == s;
      PrependNothing(Unescape(s, d));
    }
  }

  /** A string without `\` decodes to itself. */
  lemma UnescapeWithoutBackslash(s: JString, d: Dialect)
    requires BACKSLASH !in s
    ensures Unescape(s, d) == Ok(s)
  {
    UnescapeCopies(s, [], d);
    assert s + [] == s;
  }

  /** `\\` after plain text decodes to one `\`, whatever comes after. */
  lemma UnescapeDoubledBackslash(p: JString, s: JString, d: Dialect)
    requires BACKSLASH !in p
    ensures Unescape(p + [BACKSLASH, BACKSLASH] + s, d) == Prepend(p + [BACKSLASH], Unescape(s, d))
  {
    var t := [BACKSLASH, BACKSLASH] + s;
    assert p + [BACKSLASH, BACKSLASH] + s == p + t;
    UnescapeCopies(p, t, d);
    assert t[2..] == s;
    PrependPrepend(p, [BACKSLASH], Unescape(s, d));
  }

  /**
   * The marker and a full set of hex digits after plain text decode to the
   * one char with the digits' value, whatever comes after.
   */
  lemma UnescapeHexEscape(p: JString, ds: JString, s: JString, d: Dialect)
    requires BACKSLASH !in p
    requires |ds| == d.Width() && AllHexDigits(ds)
    ensures HexValue(ds) < 0x1_0000
    ensures Unescape(p + [BACKSLASH, d.Marker()] + ds + s, d) == Prepend(p + [HexValue(ds) as Char16], Unescape(s, d))
  {
    EscapeValueFits(d);
    var t := [BACKSLASH, d.Marker()] + ds + s;
    assert p + [BACKSLASH, d.Marker()] + ds + s == p + t;
    UnescapeCopies(p, t, d);
    assert t[2..2 + d.Width()] == ds;
    assert t[2 + d.Width()..] == s;
    PrependPrepend(p, [HexValue(ds) as Char16], Unescape(s, d));
  }

  /**
   * The marker followed by as many chars as the dialect reads, not all of
   * them hex digits, fails with `NumberFormat`, whatever comes after.
   */
  lemma UnescapeBadHex(p: JString, ds: JString, s: JString, d: Dialect)
    requires BACKSLASH !in p
    requires |ds| == d.Width() && !AllHexDigits(ds)
    ensures Unescape(p + [BACKSLASH, d.Marker()] + ds + s, d) == Err(NumberFormat)
  {
    var t := [BACKSLASH, d.Marker()] + ds + s;
    assert p + [BACKSLASH, d.Marker()] + ds + s == p + t;
    UnescapeCopies(p, t, d);
    assert t[2..2 + d.Width()] == ds;
  }

  /** `\` followed by a char other than `\` and the dialect's marker fails, whatever comes after. */
  lemma UnescapeInvalid(p: JString, c: Char16, s: JString, d: Dialect)
    requires BACKSLASH !in p
    requires c != BACKSLASH && c != d.Marker()
    ensures Unescape(p + [BACKSLASH, c] + s, d) == Err(InvalidEscape)
  {
    assert p + [BACKSLASH, c] + s == p + ([BACKSLASH, c] + s);
    UnescapeCopies(p, [BACKSLASH, c] + s, d);
  }

  /** An escape cut off by the end of the string fails rather than being dropped. */
  lemma UnescapeTruncated(p: JString, tail: JString, d: Dialect)
    requires BACKSLASH !in p
    requires tail == [BACKSLASH] || (|tail| < 2 + d.Width() && |tail| >= 2 && tail[0] == BACKSLASH && tail[1] == d.Marker())
    ensures Unescape(p + tail, d) == Err(IndexOutOfBounds)
  {
    UnescapeCopies(p, tail, d);
  }

  // ----- The inverse: escaping -----

  /** Chars the dialect can carry: a byte escape holds at most 0xff. */
  predicate Escapable(c: Char16, d: Dialect)
  {
    d.UnicodeEscapes? || c <= 0xff
  }

  /** Printable ASCII, which an escaper leaves as it is (apart from `\`). */
  predicate Printable(c: Char16)
  {
    0x20 <= c < 0x7f
  }

  /** One char in escaped form: `\` doubled, printable ASCII kept, anything else as a hex escape. */
  function EscapeChar(c: Char16, d: Dialect): JString
    requires Escapable(c, d)
  {
    if c == BACKSLASH then [BACKSLASH, BACKSLASH]
    else if Printable(c) then [c]
    else [BACKSLASH, d.Marker()] + HexDigits(c, d.Width())
  }

  /** `t` written in the escape syntax of dialect `d`. */
  function Escape(t: JString, d: Dialect): JString
    requires forall k :: 0 <= k < |t| ==> Escapable(t[k], d)
  {
    if t == [] then [] else EscapeChar(t[0], d) + Escape(t[1..], d)
  }

  /** Decoding one escaped char gives the char and leaves the rest of the text to decode. */
  lemma UnescapeEscapeChar(c: Char16, s: JString, d: Dialect)
    requires Escapable(c, d)
    ensures Unescape(EscapeChar(c, d) + s, d) == Prepend([c], Unescape(s, d))
  {
    var e := EscapeChar(c, d) + s;
    if c == BACKSLASH {
      assert e[2..] == s;
    } else if Printable(c) {
      assert e[1..] == s;
    } else {
      var w := d.Width();
      assert c < Pow16(w) by {
        assert Pow16(2) == 0x100;
        assert Pow16(4) == 0x1_0000;
      }
      HexValueOfDigits(c, w);
      assert e[2..2 + w] == HexDigits(c, w);
      assert e[2 + w..] == s;
    }
  }

  /** Every escapable text survives escaping and decoding unchanged. */
  lemma {:induction false} UnescapeEscape(t: JString, d: Dialect)
    requires forall k :: 0 <= k < |t| ==> Escapable(t[k], d)
    ensures Unescape(Escape(t, d), d) == Ok(t)
    decreases |t|
  {
    if t == [] {
    } else {
      UnescapeEscape(t[1..], d);
      UnescapeEscapeChar(t[0], Escape(t[1..], d), d);
      assert [t[0]] + t[1..] == t;
    }
  }
}
