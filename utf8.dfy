/**
 * UTF-8 encoding of text into bytes, as RFC 3629 defines it. The broker
 * uses it to turn the timestamp text it writes into a message payload into
 * bytes. A Dafny `char` is a Unicode scalar value, so every character has
 * exactly one encoding of one to four bytes.
 */
module Utf8 {
  import opened Wrappers

  newtype byte = x: int | 0 <= x < 0x100

  /** True of text made only of characters below U+0080. */
  predicate IsAscii(s: string) {
    forall i :: 0 <= i < |s| ==> s[i] as int < 0x80
  }

  /** True of the integers Dafny's `char` stands for: the Unicode scalar values. */
  predicate IsScalarValue(n: int) {
    0 <= n < 0xD800 || 0xE000 <= n < 0x11_0000
  }

  /** True of the bytes 10xxxxxx that carry six bits after a lead byte. */
  predicate IsContinuation(x: byte) {
    0x80 <= x < 0xC0
  }

  /**
   * The bytes of one character: the shortest form of its code point, a lead
   * byte that says how many bytes follow and carries the high bits, then
   * continuation bytes carrying six bits each.
   */
  function EncodeChar(c: char): (r: seq<byte>)
    ensures |r| == 1 <==> c as int < 0x80
    ensures |r| == 2 <==> 0x80 <= c as int < 0x800
    ensures |r| == 3 <==> 0x800 <= c as int < 0x1_0000
    ensures |r| == 4 <==> 0x1_0000 <= c as int
    ensures forall k :: 1 <= k < |r| ==> IsContinuation(r[k])
    ensures |r| == 1 ==> r[0] as int == c as int
    ensures |r| == 2 ==> (0xC2 <= r[0] < 0xE0
      && (r[0] as int - 0xC0) * 0x40 + (r[1] as int - 0x80) == c as int)
    ensures |r| == 3 ==> (0xE0 <= r[0] < 0xF0
      && ((r[0] as int - 0xE0) * 0x40 + (r[1] as int - 0x80)) * 0x40 + (r[2] as int - 0x80) == c as int)
    ensures |r| == 4 ==> (0xF0 <= r[0] < 0xF5
      && (((r[0] as int - 0xF0) * 0x40 + (r[1] as int - 0x80)) * 0x40 + (r[2] as int - 0x80)) * 0x40
         + (r[3] as int - 0x80) == c as int)
  {
    // the code point in base 0x40, lowest digit first: n == ((q3 * 0x40 + d3) * 0x40 + d2) * 0x40 + d1
    var n := c as int;
    var d1, q1 := n % 0x40, n / 0x40;
    var d2, q2 := q1 % 0x40, q1 / 0x40;
    var d3, q3 := q2 % 0x40, q2 / 0x40;
    if n < 0x80 then
      [n as byte]
    else if n < 0x800 then
      [(0xC0 + q1) as byte, (0x80 + d1) as byte]
    else if n < 0x1_0000 then
      [(0xE0 + q2) as byte, (0x80 + d2) as byte, (0x80 + d1) as byte]
    else
      [(0xF0 + q3) as byte, (0x80 + d3) as byte, (0x80 + d2) as byte, (0x80 + d1) as byte]
  }

  /**
   * The first character of `b` and the number of bytes it takes, or None
   * when `b` does not start with a well-formed shortest-form UTF-8 sequence.
   */
  function DecodeChar(b: seq<byte>): (r: Option<(char, nat)>)
    ensures r.Some? ==> 1 <= r.value.1 <= |b|
  {
    if |b| == 0 then None
    else if b[0] < 0x80 then Some(((b[0] as int) as char, 1))
    else if b[0] < 0xC2 then None
    else if b[0] < 0xE0 then
      if |b| < 2 || !IsContinuation(b[1]) then None
      else Some((((b[0] as int - 0xC0) * 0x40 + (b[1] as int - 0x80)) as char, 2))
    else if b[0] < 0xF0 then
      if |b| < 3 || !IsContinuation(b[1]) || !IsContinuation(b[2]) then None
      else
        var n := ((b[0] as int - 0xE0) * 0x40 + (b[1] as int - 0x80)) * 0x40 + (b[2] as int - 0x80);
        if n < 0x800 || !IsScalarValue(n) then None else Some((n as char, 3))
    else if b[0] < 0xF5 then
      if |b| < 4 || !IsContinuation(b[1]) || !IsContinuation(b[2]) || !IsContinuation(b[3]) then None
      else
        var n := (((b[0] as int - 0xF0) * 0x40 + (b[1] as int - 0x80)) * 0x40 + (b[2] as int - 0x80)) * 0x40
                 + (b[3] as int - 0x80);
        if n < 0x1_0000 || !IsScalarValue(n) then None else Some((n as char, 4))
    else None
  }

  /** The text `b` encodes, or None when `b` is not well-formed UTF-8. */
  function Utf8Decode(b: seq<byte>): (r: Option<string>)
    decreases |b|
  {
    if b == [] then Some([])
    else match DecodeChar(b)
      case None => None
      case Some((c, k)) =>
        match Utf8Decode(b[k..])
        case None => None
        case Some(s) => Some([c] + s)
  }

  /** Decoding reads back exactly the character that was encoded, whatever follows it. */
  lemma DecodeEncodeChar(c: char, rest: seq<byte>)
    ensures DecodeChar(EncodeChar(c) + rest) == Some((c, |EncodeChar(c)|))
  {
    var e := EncodeChar(c);
    var b := e + rest;
    assert b[..|e|] == e;
    assert forall k :: 0 <= k < |e| ==> b[k] == e[k];
  }

  /** The UTF-8 bytes of a whole text, character by character. */
  function Utf8Bytes(s: string): (r: seq<byte>)
    ensures |s| <= |r| <= 4 * |s|
    ensures s == [] <==> r == []
  {
    if s == [] then [] else EncodeChar(s[0]) + Utf8Bytes(s[1..])
  }

  /** Encoding distributes over concatenation of texts. */
  lemma {:induction false} Utf8BytesAppend(a: string, b: string)
    ensures Utf8Bytes(a + b) == Utf8Bytes(a) + Utf8Bytes(b)
  {
    if a == [] {
      assert a + b == b;
    } else {
      assert (a + b)[0] == a[0];
      assert (a + b)[1..] == a[1..] + b;
      Utf8BytesAppend(a[1..], b);
    }
  }

  /** An ASCII text encodes to the bytes `b` that hold its character codes in order. */
  lemma AsciiEncoding(s: string, b: seq<byte>)
    requires |s| == |b|
    requires forall i :: 0 <= i < |s| ==> s[i] as int < 0x80 && s[i] as int == b[i] as int
    ensures Utf8Bytes(s) == b
  {
    AsciiBytes(s);
  }

  /** An ASCII text encodes to one byte per character, each byte its code. */
  lemma {:induction false} AsciiBytes(s: string)
    requires IsAscii(s)
    ensures |Utf8Bytes(s)| == |s|
    ensures forall i :: 0 <= i < |s| ==> Utf8Bytes(s)[i] as int == s[i] as int
  {
    if s != [] {
      assert IsAscii(s[1..]) by {
        forall i | 0 <= i < |s[1..]| ensures s[1..][i] as int < 0x80 {
          assert s[1..][i] == s[i + 1];
        }
      }
      AsciiBytes(s[1..]);
    }
  }

  /** Decoding the encoding of any text gives the text back. */
  lemma {:induction false} Utf8RoundTrip(s: string)
    ensures Utf8Decode(Utf8Bytes(s)) == Some(s)
  {
    if s != [] {
      var e := EncodeChar(s[0]);
      var b := Utf8Bytes(s);
      assert b == e + Utf8Bytes(s[1..]);
      DecodeEncodeChar(s[0], Utf8Bytes(s[1..]));
      assert b[|e|..] == Utf8Bytes(s[1..]);
      Utf8RoundTrip(s[1..]);
      assert [s[0]] + s[1..] == s;
    }
  }
}
