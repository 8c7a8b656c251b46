/**
 * UTF-8 as RFC 3629 defines it, decoded strictly: a sequence is rejected
 * when it starts with a continuation byte or one of C0, C1, F5..FF, when a
 * continuation byte is missing, when its encoding is longer than needed,
 * when it encodes a surrogate (U+D800..U+DFFF) or a value above U+10FFFF.
 * A Dafny char is exactly a Unicode scalar value, so every decoded
 * character is one.
 */
module Utf8 {
  import opened Wrappers
  import opened Bytes

  predicate IsContinuation(b: Byte) {
    0x80 <= b < 0xC0
  }

  /**
   * The character that the UTF-8 sequence at the front of bs encodes and
   * the number of bytes it takes; None if the front is not a well-formed
   * sequence (Table 3-7 of the Unicode standard, section 4 of RFC 3629).
   */
  function DecodeScalar(bs: seq<Byte>): (r: Option<(char, nat)>)
    requires bs != []
    ensures r.Some? ==> 1 <= r.value.1 <= |bs| && r.value.1 <= 4
  {
    var b0: int := bs[0];
    if b0 < 0x80 then Some((b0 as char, 1))
    else if b0 < 0xC2 then None
    else if b0 < 0xE0 then
      if |bs| < 2 || !IsContinuation(bs[1]) then None
      else Some((((b0 - 0xC0) * 64 + (bs[1] as int - 0x80)) as char, 2))
    else if b0 < 0xF0 then
      var lo := if b0 == 0xE0 then 0xA0 else 0x80;
      var hi := if b0 == 0xED then 0xA0 else 0xC0;
      if |bs| < 3 || !(lo <= bs[1] < hi) || !IsContinuation(bs[2]) then None
      else Some(((((b0 - 0xE0) * 64 + (bs[1] as int - 0x80)) * 64 + (bs[2] as int - 0x80)) as char, 3))
    else if b0 < 0xF5 then
      var lo := if b0 == 0xF0 then 0x90 else 0x80;
      var hi := if b0 == 0xF4 then 0x90 else 0xC0;
      if |bs| < 4 || !(lo <= bs[1] < hi) || !IsContinuation(bs[2]) || !IsContinuation(bs[3]) then None
      else Some((((((b0 - 0xF0) * 64 + (bs[1] as int - 0x80)) * 64 + (bs[2] as int - 0x80)) * 64 + (bs[3] as int - 0x80)) as char, 4))
    else None
  }

  /** The text a byte string encodes; None if any part of it is not well-formed UTF-8. */
  function Decode(bs: seq<Byte>): Option<string>
    decreases |bs|
  {
    if bs == [] then Some([])
    else
      match DecodeScalar(bs)
      case None => None
      case Some((c, n)) =>
        match Decode(bs[n..])
        case None => None
        case Some(rest) => Some([c] + rest)
  }

  /** The shortest UTF-8 sequence for one character. */
  function EncodeScalar(c: char): (bs: seq<Byte>)
    ensures 1 <= |bs| <= 4
  {
    var v := c as int;
    var a := v / 64;
    var a2 := a / 64;
    assert v == a * 64 + v % 64 && a == a2 * 64 + a % 64 && a2 == (a2 / 64) * 64 + a2 % 64;
    if v < 0x80 then [v]
    else if v < 0x800 then [0xC0 + a, 0x80 + v % 64]
    else if v < 0x1_0000 then [0xE0 + a2, 0x80 + a % 64, 0x80 + v % 64]
    else [0xF0 + a2 / 64, 0x80 + a2 % 64, 0x80 + a % 64, 0x80 + v % 64]
  }

  /** The UTF-8 encoding of a text, character by character. */
  function Encode(s: string): seq<Byte>
    decreases |s|
  {
    if s == [] then [] else EncodeScalar(s[0]) + Encode(s[1..])
  }

  /** The sequence of one character decodes back to it, whatever follows. */
  lemma ScalarRoundTrip(c: char, rest: seq<Byte>)
    ensures DecodeScalar(EncodeScalar(c) + rest) == Some((c, |EncodeScalar(c)|))
  {
    var v := c as int;
    var a := v / 64;
    var a2 := a / 64;
    assert v == a * 64 + v % 64 && a == a2 * 64 + a % 64 && a2 == (a2 / 64) * 64 + a2 % 64;
    var bs := EncodeScalar(c) + rest;
    assert bs[..|EncodeScalar(c)|] == EncodeScalar(c);
  }

  /** Decoding undoes encoding, for every text. */
  lemma {:induction false} DecodeEncode(s: string)
    ensures Decode(Encode(s)) == Some(s)
    decreases |s|
  {
    if s != [] {
      var head := EncodeScalar(s[0]);
      var tail := Encode(s[1..]);
      ScalarRoundTrip(s[0], tail);
      DecodeEncode(s[1..]);
      var bs := head + tail;
      assert bs[|head|..] == tail;
      assert [s[0]] + s[1..] == s;
    }
  }

  /** An ASCII character is encoded as its own code. */
  lemma EncodeAscii(c: char)
    requires c as int < 0x80
    ensures EncodeScalar(c) == [c as int]
  {
  }
}
