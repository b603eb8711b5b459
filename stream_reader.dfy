/**
 * The stream-reading half of PickleUtils. The `InputStream` it reads from is
 * modelled as the bytes the stream will deliver and a cursor; its two read
 * calls are the only way the cursor moves. The buffered `read(b, off, len)`
 * may deliver any positive number of the requested bytes, so the retry loop
 * of `readbytes_into` is verified for every way a stream can split a read.
 */
module StreamReader {
  import opened JavaTypes
  import EscapeCodec

  const LF: Byte := 0x0A

  function Min(a: int, b: int): int
  {
    if a <= b then a else b
  }

  /** A byte source: `data` is everything it will deliver, `pos` how much it has delivered. */
  class InputStream {
    const data: seq<Byte>
    var pos: nat

    ghost predicate Valid()
      reads this
    {
      pos <= |data|
    }

    /** The bytes not read yet. */
    function Remaining(): seq<Byte>
      reads this
      requires Valid()
    {
      data[pos..]
    }

    constructor (data: seq<Byte>)
      ensures Valid() && this.data == data && pos == 0
    {
      this.data := data;
      pos := 0;
    }

    /** `read()`: the next byte, or -1 at the end of the stream. */
    method Read() returns (c: int)
      requires Valid()
      modifies this`pos
      ensures Valid()
      ensures old(pos) < |data| ==> c == data[old(pos)] && pos == old(pos) + 1
      ensures old(pos) == |data| ==> c == -1 && pos == old(pos)
    {
      if pos == |data| {
        return -1;
      }
      c := data[pos];
      pos := pos + 1;
    }

    /**
     * `read(buffer, offset, length)` for a positive `length`: at least one and
     * at most `length` of the next bytes, stored from `buffer[offset]` on, and
     * their number; -1 at the end of the stream. How many it delivers is the
     * stream's choice. A range outside the buffer throws before anything is read.
     */
    method ReadInto(buffer: array<Byte>, offset: int, length: int) returns (r: Result<int>)
      requires Valid()
      requires 0 < length
      modifies this`pos, buffer
      ensures Valid()
      ensures !(0 <= offset && offset + length <= buffer.Length) ==>
        r == Err(IndexOutOfBounds) && pos == old(pos) && buffer[..] == old(buffer[..])
      ensures 0 <= offset && offset + length <= buffer.Length && old(pos) == |data| ==>
        r == Ok(-1) && pos == old(pos) && buffer[..] == old(buffer[..])
      ensures 0 <= offset && offset + length <= buffer.Length && old(pos) < |data| ==>
        r.Ok? && 1 <= r.value <= Min(length, |data| - old(pos)) && pos == old(pos) + r.value
        && forall k :: 0 <= k < buffer.Length ==>
             buffer[k] == if offset <= k < offset + r.value then data[old(pos) + k - offset] else old(buffer[k])
    {
      if !(0 <= offset && offset + length <= buffer.Length) {
        return Err(IndexOutOfBounds);
      }
      if pos == |data| {
        return Ok(-1);
      }
      var most := Min(length, |data| - pos);
      var n :| 1 <= n <= most;
      var p := pos;
      forall k | offset <= k < offset + n {
        buffer[k] := data[p + k - offset];
      }
      pos := p + n;
      return Ok(n);
    }
  }

  // ----- Specification of readline -----

  /** The index of the first LF in `s`, or `|s|` if there is none. */
  function LineEnd(s: seq<Byte>): (k: nat)
    ensures k <= |s|
    ensures forall j :: 0 <= j < k ==> s[j] != LF
    ensures k < |s| ==> s[k] == LF
  {
    if s == [] || s[0] == LF then 0 else 1 + LineEnd(s[1..])
  }

  /** An LF at `m` with none before it is the first LF. */
  lemma LineEndAt(s: seq<Byte>, m: nat)
    requires m < |s| && s[m] == LF
    requires forall j :: 0 <= j < m ==> s[j] != LF
    ensures LineEnd(s) == m
  {
  }

  /** Without an LF the line runs to the end. */
  lemma LineEndNone(s: seq<Byte>)
    requires forall j :: 0 <= j < |s| ==> s[j] != LF
    ensures LineEnd(s) == |s|
  {
  }

  /** The line of a stream that has an LF at `m` and none before. */
  lemma LineTerminated(rest: seq<Byte>, m: nat, includeLF: bool)
    requires m < |rest| && rest[m] == LF
    requires forall j :: 0 <= j < m ==> rest[j] != LF
    ensures Line(rest, includeLF) == Ok(EscapeCodec.RawString(rest[..m]) + if includeLF then [LF as Char16] else [])
    ensures LineConsumed(rest) == m + 1
  {
    LineEndAt(rest, m);
  }

  /** The line of a non-empty stream without an LF: all of it. */
  lemma LineUnterminated(rest: seq<Byte>, includeLF: bool)
    requires rest != []
    requires forall j :: 0 <= j < |rest| ==> rest[j] != LF
    ensures Line(rest, includeLF) == Ok(EscapeCodec.RawString(rest))
    ensures LineConsumed(rest) == |rest|
  {
    LineEndNone(rest);
    assert rest[..|rest|] == rest;
    assert EscapeCodec.RawString(rest) + [] == EscapeCodec.RawString(rest);
  }

  /** How many bytes `readline` consumes from `rest`: the line and its LF, if there is one. */
  function LineConsumed(rest: seq<Byte>): nat
  {
    if LineEnd(rest) < |rest| then LineEnd(rest) + 1 else |rest|
  }

  /**
   * What `readline(includeLF)` returns when `rest` is left in the stream: the
   * bytes up to the first LF as chars, with the LF when asked for and
   * present; an error when the stream is already at its end.
   */
  function Line(rest: seq<Byte>, includeLF: bool): Result<JString>
  {
    if rest == [] then Err(PrematureEndOfFile)
    else
      var k := LineEnd(rest);
      Ok(EscapeCodec.RawString(rest[..k]) + if includeLF && k < |rest| then [LF as Char16] else [])
  }

  /** The PickleUtils reading methods, over the stream given at construction. */
  class PickleUtils {
    const input: InputStream

    constructor (stream: InputStream)
      ensures input == stream
    {
      input := stream;
    }

    /** `readline(includeLF)`: one line, consumed up to and including its LF. */
    method ReadLine(includeLF: bool) returns (r: Result<JString>)
      requires input.Valid()
      modifies input`pos
      ensures input.Valid()
      ensures r == Line(old(input.Remaining()), includeLF)
      ensures input.pos == old(input.pos) + LineConsumed(old(input.Remaining()))
    {
      ghost var rest := input.Remaining();
      ghost var start := input.pos;
      var sb: JString := [];
      while true
        invariant input.Valid() && start <= input.pos
        invariant rest == input.data[start..]
        invariant forall j :: start <= j < input.pos ==> input.data[j] != LF
        invariant sb == EscapeCodec.RawString(input.data[start..input.pos])
        decreases |input.data| - input.pos
      {
        ghost var p := input.pos;
        var c := input.Read();
        if c == -1 {
          if |sb| == 0 {
            return Err(PrematureEndOfFile);
          }
          LineUnterminated(rest, includeLF);
          assert input.data[start..p] == rest;
          assert Ok(sb) == Line(rest, includeLF);
          break;
        }
        if c == LF {
          LineTerminated(rest, p - start, includeLF);
          assert rest[..p - start] == input.data[start..p];
          if includeLF {
            sb := sb + [c as Char16];
          } else {
            assert sb + [] == sb;
          }
          assert Ok(sb) == Line(rest, includeLF);
          break;
        }
        EscapeCodec.RawStringAppend(input.data[start..p], c);
        assert input.data[start..p + 1] == input.data[start..p] + [c];
        sb := sb + [c as Char16];
      }
      return Ok(sb);
    }

    /** `readline()`: one line, without its LF. */
    method ReadLineWithoutLF() returns (r: Result<JString>)
      requires input.Valid()
      modifies input`pos
      ensures input.Valid()
      ensures r == Line(old(input.Remaining()), false)
      ensures input.pos == old(input.pos) + LineConsumed(old(input.Remaining()))
    {
      r := ReadLine(false);
    }

    /** `readbyte`: the next byte's value, or -1 at the end of the stream. */
    method ReadByte() returns (b: int)
      requires input.Valid()
      modifies input`pos
      ensures input.Valid()
      ensures -1 <= b <= 0xff
      ensures old(input.pos) < |input.data| ==> b == input.data[old(input.pos)] && input.pos == old(input.pos) + 1
      ensures old(input.pos) == |input.data| ==> b == -1 && input.pos == old(input.pos)
    {
      b := input.Read();
    }

    /**
     * `readbytes_into(buffer, offset, length)`: the next `length` bytes into
     * `buffer[offset..offset + length]`, in as many reads as the stream needs;
     * an error when the stream ends first, by which time every remaining byte
     * has been stored. A `length` of zero or less reads nothing.
     */
    method ReadBytesInto(buffer: array<Byte>, offset: int, length: int) returns (o: Outcome)
      requires input.Valid()
      modifies input`pos, buffer
      ensures input.Valid()
      ensures length > 0 && !(0 <= offset && offset + length <= buffer.Length) ==>
        o == Fail(IndexOutOfBounds) && input.pos == old(input.pos) && buffer[..] == old(buffer[..])
      ensures length <= 0 || (0 <= offset && offset + length <= buffer.Length) ==>
        var got := if length <= 0 then 0 else Min(length, |old(input.Remaining())|);
        && input.pos == old(input.pos) + got
        && o == (if length <= |old(input.Remaining())| then Pass else Fail(ExpectedMoreBytes))
        && forall k :: 0 <= k < buffer.Length ==>
             buffer[k] == if offset <= k < offset + got then old(input.Remaining())[k - offset] else old(buffer[k])
    {
      ghost var rest := input.Remaining();
      ghost var start := input.pos;
      ghost var initial := buffer[..];
      var off, len := offset, length;
      while len > 0
        invariant input.Valid() && start <= input.pos
        invariant rest == input.data[start..]
        invariant length <= 0 ==> len == length && off == offset
        invariant length > 0 && off == offset ==> len == length
        invariant length > 0 && off != offset ==>
          0 <= len && 0 <= offset < off && off + len == offset + length <= buffer.Length
        invariant length > 0 && len <= 0 ==> off != offset
        invariant off - offset == input.pos - start
        invariant forall k :: offset <= k < off ==> buffer[k] == input.data[start + k - offset]
        invariant forall k :: 0 <= k < buffer.Length && !(offset <= k < off) ==> buffer[k] == initial[k]
        decreases len
      {
        var read := input.ReadInto(buffer, off, len);
        if read.Err? {
          return Fail(read.error);
        }
        if read.value == -1 {
          return Fail(ExpectedMoreBytes);
        }
        off := off + read.value;
        len := len - read.value;
      }
      return Pass;
    }

    /** `readbytes(n)`: the next `n` bytes, in a new array. */
    method ReadBytes(n: int) returns (r: Result<seq<Byte>>)
      requires input.Valid()
      modifies input`pos
      ensures input.Valid()
      ensures n < 0 ==> r == Err(NegativeArraySize(n)) && input.pos == old(input.pos)
      ensures 0 <= n <= |old(input.Remaining())| ==>
        r == Ok(old(input.Remaining())[..n]) && input.pos == old(input.pos) + n
      ensures n > |old(input.Remaining())| ==> r == Err(ExpectedMoreBytes) && input.pos == |input.data|
    {
      if n < 0 {
        return Err(NegativeArraySize(n));
      }
      ghost var rest := input.Remaining();
      var buffer := new Byte[n];
      var o := ReadBytesInto(buffer, 0, n);
      if o.Fail? {
        return Err(o.error);
      }
      assert buffer[..] == rest[..n];
      return Ok(buffer[..]);
    }
  }

  // ----- Properties of readline -----

  /** Without `includeLF` the line never holds an LF; with it, an LF only as its last char. */
  lemma LineLF(rest: seq<Byte>, includeLF: bool)
    requires Line(rest, includeLF).Ok?
    ensures var line := Line(rest, includeLF).value;
      forall j :: 0 <= j < |line| - 1 ==> line[j] != LF as Char16
    ensures var line := Line(rest, includeLF).value;
      !includeLF ==> forall j :: 0 <= j < |line| ==> line[j] != LF as Char16
  {
  }

  /** `readline(true)` returns exactly the bytes it consumes, as chars. */
  lemma LineIsConsumed(rest: seq<Byte>)
    requires rest != []
    ensures Line(rest, true) == Ok(EscapeCodec.RawString(rest[..LineConsumed(rest)]))
  {
    var k := LineEnd(rest);
    if k < |rest| {
      assert rest[..k + 1] == rest[..k] + [LF];
      EscapeCodec.RawStringAppend(rest[..k], LF);
    } else {
      assert rest[..k] == rest;
      assert EscapeCodec.RawString(rest) + [] == EscapeCodec.RawString(rest);
    }
  }

  /** Both forms of `readline` return the same line, the LF aside. */
  lemma LineWithAndWithoutLF(rest: seq<Byte>)
    ensures Line(rest, false).Ok? <==> rest != []
    ensures rest != [] && LineEnd(rest) < |rest| ==>
      Line(rest, true).value == Line(rest, false).value + [LF as Char16]
    ensures rest != [] && LineEnd(rest) == |rest| ==>
      Line(rest, true) == Line(rest, false)
  {
  }

  /** The cases that describe `readline`: a terminated line, an unterminated last line, an empty stream. */
  lemma LineExamples()
    ensures Line([0x61, 0x62, 0x63, LF], false) == Ok([0x61, 0x62, 0x63])
    ensures Line([0x61, 0x62, 0x63, LF], true) == Ok([0x61, 0x62, 0x63, 0x0A])
    ensures Line([0x61, 0x62, 0x63], false) == Ok([0x61, 0x62, 0x63])
    ensures Line([0x61, 0x62, 0x63, LF, 0x64], false) == Ok([0x61, 0x62, 0x63])
    ensures Line([], true) == Err(PrematureEndOfFile)
  {
    var s: seq<Byte> := [0x61, 0x62, 0x63, LF];
    LineTerminated(s, 3, false);
    LineTerminated(s, 3, true);
    assert s[..3] == [0x61, 0x62, 0x63];
    assert EscapeCodec.RawString(s[..3]) == [0x61, 0x62, 0x63];
    assert [0x61, 0x62, 0x63] + [LF as Char16] == [0x61, 0x62, 0x63, 0x0A];
    assert Line(s, true) == Ok([0x61, 0x62, 0x63, 0x0A]);
    assert EscapeCodec.RawString(s[..3]) + [] == [0x61, 0x62, 0x63];
    var t: seq<Byte> := [0x61, 0x62, 0x63];
    LineEndNone(t);
    assert t[..3] == t;
    var u: seq<Byte> := [0x61, 0x62, 0x63, LF, 0x64];
    LineTerminated(u, 3, false);
    assert u[..3] == [0x61, 0x62, 0x63];
    assert EscapeCodec.RawString(u[..3]) + [] == [0x61, 0x62, 0x63];
  }
}
