/** UTF-8 as used by `main`: string literals are sent and compared as their UTF-8 bytes
    (`str::as_bytes`), and received bytes are accepted as text only when they are well-formed
    UTF-8 (`String::from_utf8`). Well-formedness follows the byte-sequence grammar of
    section 4 of RFC 3629: no overlong forms, no surrogates, nothing above U+10FFFF. */
module Utf8 {
  import opened Bytes

  predicate IsContinuation(x: byte) {
    0x80 <= x <= 0xBF
  }

  /** The UTF-8 encoding of one Unicode scalar value. */
  function EncodeChar(c: char): (r: seq<byte>)
    ensures 1 <= |r| <= 4
    ensures (|r| == 1) == (c as int < 0x80)
    ensures |r| == 1 ==> r[0] as int == c as int
  {
    var n := c as int;
    if n < 0x80 then [n as byte]
    else if n < 0x800 then [(0xC0 + n / 0x40) as byte, (0x80 + n % 0x40) as byte]
    else if n < 0x1_0000 then
      [(0xE0 + n / 0x1000) as byte, (0x80 + n / 0x40 % 0x40) as byte, (0x80 + n % 0x40) as byte]
    else
      [(0xF0 + n / 0x4_0000) as byte, (0x80 + n / 0x1000 % 0x40) as byte,
       (0x80 + n / 0x40 % 0x40) as byte, (0x80 + n % 0x40) as byte]
  }

  /** The UTF-8 encoding of a string (`str::as_bytes`). */
  function Encode(s: string): (r: seq<byte>)
    ensures |r| >= |s|
  {
    if s == [] then [] else EncodeChar(s[0]) + Encode(s[1..])
  }

  /** Length of the well-formed UTF-8 sequence that starts `b`, or 0 if `b` does not start
      with one (section 4 of RFC 3629, one row of the grammar per branch). */
  function SequenceLength(b: seq<byte>): (n: nat)
    requires b != []
    ensures n <= 4 && n <= |b|
    ensures b[0] < 0x80 ==> n == 1
    ensures n == 1 ==> b[0] < 0x80
  {
    var b0 := b[0];
    if b0 < 0x80 then 1
    else if 0xC2 <= b0 <= 0xDF then
      if |b| >= 2 && IsContinuation(b[1]) then 2 else 0
    else if 0xE0 <= b0 <= 0xEF then
      var lo: byte := if b0 == 0xE0 then 0xA0 else 0x80;
      var hi: byte := if b0 == 0xED then 0x9F else 0xBF;
      if |b| >= 3 && lo <= b[1] <= hi && IsContinuation(b[2]) then 3 else 0
    else if 0xF0 <= b0 <= 0xF4 then
      var lo: byte := if b0 == 0xF0 then 0x90 else 0x80;
      var hi: byte := if b0 == 0xF4 then 0x8F else 0xBF;
      if |b| >= 4 && lo <= b[1] <= hi && IsContinuation(b[2]) && IsContinuation(b[3]) then 4 else 0
    else 0
  }

  /** `String::from_utf8(b)` is `Ok`. Valid bytes never start with a continuation byte or with
      C0, C1 or F5 to FF. */
  predicate IsValid(b: seq<byte>): (r: bool)
    ensures r && b != [] ==> b[0] < 0x80 || 0xC2 <= b[0] <= 0xF4
  {
    WellFormed(b)
  }

  /** `b` is a concatenation of well-formed UTF-8 sequences. */
  predicate WellFormed(b: seq<byte>)
    decreases |b|
  {
    b == [] || (SequenceLength(b) > 0 && WellFormed(b[SequenceLength(b)..]))
  }

  predicate IsAscii(b: seq<byte>) {
    forall i :: 0 <= i < |b| ==> b[i] < 0x80
  }

  /** The encoder emits exactly one well-formed sequence per character. */
  lemma EncodeCharIsOneSequence(c: char, rest: seq<byte>)
    ensures SequenceLength(EncodeChar(c) + rest) == |EncodeChar(c)|
  {
    var n := c as int;
    if n < 0x80 {
    } else if n < 0x800 {
      TwoByteSequence(c, rest);
    } else if n < 0x1_0000 {
      ThreeByteSequence(c, rest);
    } else {
      FourByteSequence(c, rest);
    }
  }

  lemma TwoByteSequence(c: char, rest: seq<byte>)
    requires 0x80 <= c as int < 0x800
    ensures SequenceLength(EncodeChar(c) + rest) == 2
  {
    var e := EncodeChar(c);
    var b := e + rest;
    assert b[0] == e[0] && b[1] == e[1];
  }

  lemma ThreeByteSequence(c: char, rest: seq<byte>)
    requires 0x800 <= c as int < 0x1_0000
    ensures SequenceLength(EncodeChar(c) + rest) == 3
  {
    var e := EncodeChar(c);
    var b := e + rest;
    assert c as int < 0xD800 || 0xE000 <= c as int;
    assert b[0] == e[0] && b[1] == e[1] && b[2] == e[2];
  }

  lemma FourByteSequence(c: char, rest: seq<byte>)
    requires 0x1_0000 <= c as int
    ensures SequenceLength(EncodeChar(c) + rest) == 4
  {
    var e := EncodeChar(c);
    var b := e + rest;
    assert b[0] == e[0] && b[1] == e[1] && b[2] == e[2] && b[3] == e[3];
  }

  /** Every encoded string is accepted by the decoder's validity check. */
  lemma {:induction false} EncodeIsValid(s: string)
    ensures IsValid(Encode(s))
  {
    if s != [] {
      var e, tail := EncodeChar(s[0]), Encode(s[1..]);
      EncodeCharIsOneSequence(s[0], tail);
      EncodeIsValid(s[1..]);
      assert (e + tail)[|e|..] == tail;
    }
  }

  /** A string of ASCII characters encodes to the bytes with the same values. */
  lemma {:induction false} EncodeAscii(s: string, b: seq<byte>)
    requires |s| == |b|
    requires forall i :: 0 <= i < |s| ==> s[i] as int < 0x80 && b[i] as int == s[i] as int
    ensures Encode(s) == b
  {
    if s != [] {
      EncodeAscii(s[1..], b[1..]);
      assert b == [b[0]] + b[1..];
    }
  }

  /** Plain ASCII bytes are valid UTF-8. */
  lemma {:induction false} AsciiIsValid(b: seq<byte>)
    requires IsAscii(b)
    ensures IsValid(b)
  {
    if b != [] {
      AsciiIsValid(b[1..]);
    }
  }

  /** Every prefix of ASCII bytes is valid UTF-8. */
  lemma PrefixOfAsciiIsValid(a: seq<byte>, p: seq<byte>)
    requires IsAscii(a) && p <= a
    ensures IsValid(p)
  {
    assert forall i :: 0 <= i < |p| ==> p[i] == a[i];
    AsciiIsValid(p);
  }

  /** Valid UTF-8 followed by valid UTF-8 is valid UTF-8. */
  lemma {:induction false} ConcatIsValid(a: seq<byte>, b: seq<byte>)
    requires IsValid(a) && IsValid(b)
    ensures IsValid(a + b)
    decreases |a|
  {
    if a != [] {
      var n := SequenceLength(a);
      assert (a + b)[..n] == a[..n];
      SameHeadSameLength(a, a + b, n);
      assert (a + b)[n..] == a[n..] + b;
      ConcatIsValid(a[n..], b);
    } else {
      assert a + b == b;
    }
  }

  /** The length of the leading sequence depends only on the bytes it covers. */
  lemma SameHeadSameLength(a: seq<byte>, c: seq<byte>, n: nat)
    requires a != [] && n == SequenceLength(a) > 0
    requires |c| >= n && c[..n] == a[..n]
    ensures SequenceLength(c) == n
  {
    assert a[0] == a[..n][0] == c[0];
    if n >= 2 { assert a[1] == a[..n][1] == c[1]; }
    if n >= 3 { assert a[2] == a[..n][2] == c[2]; }
    if n >= 4 { assert a[3] == a[..n][3] == c[3]; }
  }
}
