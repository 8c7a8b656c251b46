/**
 * The base 64 encoding of section 4 of RFC 4648: the 64-character alphabet,
 * groups of three bytes as four characters, and '=' padding for a final
 * group of one or two bytes. The decoder is strict: the length must be a
 * multiple of four, every character outside the padding must be in the
 * alphabet, and padding may only end the text.
 */
module Base64 {
  import opened Wrappers
  import opened Bytes

  /** The alphabet of Table 1 of RFC 4648. */
  function SextetChar(v: nat): (c: char)
    requires v < 64
    ensures c != '='
  {
    if v < 26 then (65 + v) as char
    else if v < 52 then (97 + v - 26) as char
    else if v < 62 then (48 + v - 52) as char
    else if v == 62 then '+'
    else '/'
  }

  /** The value of an alphabet character; None for any other character, '=' included. */
  function CharSextet(c: char): (r: Option<nat>)
    ensures r.Some? ==> r.value < 64
  {
    if 'A' <= c <= 'Z' then Some(c as int - 65)
    else if 'a' <= c <= 'z' then Some(c as int - 97 + 26)
    else if '0' <= c <= '9' then Some(c as int - 48 + 52)
    else if c == '+' then Some(62)
    else if c == '/' then Some(63)
    else None
  }

  /** Each of the 64 values has its own character, and each alphabet character its own value. */
  lemma AlphabetBijection(v: nat, c: char)
    requires v < 64
    ensures CharSextet(SextetChar(v)) == Some(v)
    ensures CharSextet(c).Some? ==> SextetChar(CharSextet(c).value) == c
  {
  }

  /** A 24-bit group as four 6-bit values, most significant first. */
  function Sextets(n: nat): (s: seq<nat>)
    requires n < 0x100_0000
    ensures |s| == 4 && s[0] < 64 && s[1] < 64 && s[2] < 64 && s[3] < 64
  {
    var a := n / 64;
    var a2 := a / 64;
    assert a < 0x4_0000 && a2 < 0x1000;
    [a2 / 64, a2 % 64, a % 64, n % 64]
  }

  /** Four 6-bit values read as one 24-bit group. */
  function SextetsValue(s0: nat, s1: nat, s2: nat, s3: nat): nat {
    ((s0 * 64 + s1) * 64 + s2) * 64 + s3
  }

  lemma SextetsRoundTrip(n: nat)
    requires n < 0x100_0000
    ensures SextetsValue(Sextets(n)[0], Sextets(n)[1], Sextets(n)[2], Sextets(n)[3]) == n
  {
    var a := n / 64;
    var a2 := a / 64;
    assert n == a * 64 + n % 64;
    assert a == a2 * 64 + a % 64;
    assert a2 == (a2 / 64) * 64 + a2 % 64;
  }

  /** Three bytes as four characters. */
  function EncodeGroup(b0: Byte, b1: Byte, b2: Byte): (q: string)
    ensures |q| == 4
  {
    var s := Sextets(Uint24(b0, b1, b2));
    [SextetChar(s[0]), SextetChar(s[1]), SextetChar(s[2]), SextetChar(s[3])]
  }

  /** The encoding of a byte string: full groups, then a padded group for one or two bytes left. */
  function Encode(bs: seq<Byte>): string
    decreases |bs|
  {
    if bs == [] then []
    else if |bs| == 1 then EncodeGroup(bs[0], 0, 0)[..2] + "=="
    else if |bs| == 2 then EncodeGroup(bs[0], bs[1], 0)[..3] + "="
    else EncodeGroup(bs[0], bs[1], bs[2]) + Encode(bs[3..])
  }

  /** Four alphabet characters as three bytes; None if one is not in the alphabet. */
  function DecodeGroup(c0: char, c1: char, c2: char, c3: char): (r: Option<seq<Byte>>)
    ensures r.Some? ==> |r.value| == 3
  {
    match (CharSextet(c0), CharSextet(c1), CharSextet(c2), CharSextet(c3))
    case (Some(s0), Some(s1), Some(s2), Some(s3)) =>
      SextetsBound(s0, s1, s2, s3);
      Some(Uint24Bytes(SextetsValue(s0, s1, s2, s3)))
    case _ => None
  }

  lemma SextetsBound(s0: nat, s1: nat, s2: nat, s3: nat)
    requires s0 < 64 && s1 < 64 && s2 < 64 && s3 < 64
    ensures SextetsValue(s0, s1, s2, s3) < 0x100_0000
  {
  }

  /**
   * The last group: "xy==" holds one byte and "xyz=" two (the bits the
   * padding leaves over are ignored); a group without padding holds three.
   */
  function DecodeLast(c0: char, c1: char, c2: char, c3: char): (r: Option<seq<Byte>>)
    ensures r.Some? ==> 1 <= |r.value| <= 3
  {
    if c2 == '=' && c3 == '=' then
      match (CharSextet(c0), CharSextet(c1))
      case (Some(s0), Some(s1)) =>
        SextetsBound(s0, s1, 0, 0);
        Some(Uint24Bytes(SextetsValue(s0, s1, 0, 0))[..1])
      case _ => None
    else if c3 == '=' then
      match (CharSextet(c0), CharSextet(c1), CharSextet(c2))
      case (Some(s0), Some(s1), Some(s2)) =>
        SextetsBound(s0, s1, s2, 0);
        Some(Uint24Bytes(SextetsValue(s0, s1, s2, 0))[..2])
      case _ => None
    else DecodeGroup(c0, c1, c2, c3)
  }

  /**
   * The decoding of a text, in groups of four front to back, of which only
   * the last may carry padding; None when the length is not a multiple of
   * four or a group is malformed.
   */
  function Decode(s: string): Option<seq<Byte>>
    decreases |s|
  {
    if s == [] then Some([])
    else if |s| < 4 then None
    else if |s| == 4 then DecodeLast(s[0], s[1], s[2], s[3])
    else
      match DecodeGroup(s[0], s[1], s[2], s[3])
      case None => None
      case Some(head) =>
        match Decode(s[4..])
        case None => None
        case Some(rest) => Some(head + rest)
  }

  /** A full group of three bytes decodes back to the same bytes. */
  lemma GroupRoundTrip(b0: Byte, b1: Byte, b2: Byte)
    ensures var q := EncodeGroup(b0, b1, b2);
      DecodeGroup(q[0], q[1], q[2], q[3]) == Some([b0, b1, b2])
  {
    var n := Uint24(b0, b1, b2);
    var s := Sextets(n);
    SextetsRoundTrip(n);
    AlphabetBijection(s[0], 'A');
    AlphabetBijection(s[1], 'A');
    AlphabetBijection(s[2], 'A');
    AlphabetBijection(s[3], 'A');
    Uint24RoundTrip(b0, b1, b2);
  }

  /** The last group of one byte: the two padding characters stand for zero bits. */
  lemma OneByteRoundTrip(b0: Byte)
    ensures var q := EncodeGroup(b0, 0, 0);
      DecodeLast(q[0], q[1], '=', '=') == Some([b0])
  {
    var n := Uint24(b0, 0, 0);
    var s := Sextets(n);
    SextetsRoundTrip(n);
    DivMod64(b0 * 0x400, 0);
    DivMod64(b0 * 0x10, 0);
    assert s[2] == 0 && s[3] == 0;
    assert SextetsValue(s[0], s[1], 0, 0) == n;
    var q := EncodeGroup(b0, 0, 0);
    assert q[0] == SextetChar(s[0]) && q[1] == SextetChar(s[1]);
    AlphabetBijection(s[0], 'A');
    AlphabetBijection(s[1], 'A');
    Uint24RoundTrip(b0, 0, 0);
    assert Uint24Bytes(n)[..1] == [b0];
  }

  /** The last group of two bytes: the one padding character stands for zero bits. */
  lemma TwoBytesRoundTrip(b0: Byte, b1: Byte)
    ensures var q := EncodeGroup(b0, b1, 0);
      DecodeLast(q[0], q[1], q[2], '=') == Some([b0, b1])
  {
    var n := Uint24(b0, b1, 0);
    var s := Sextets(n);
    SextetsRoundTrip(n);
    DivMod64(b0 * 0x400 + b1 * 4, 0);
    assert s[3] == 0;
    assert SextetsValue(s[0], s[1], s[2], 0) == n;
    var q := EncodeGroup(b0, b1, 0);
    assert q[0] == SextetChar(s[0]) && q[1] == SextetChar(s[1]) && q[2] == SextetChar(s[2]);
    AlphabetBijection(s[0], 'A');
    AlphabetBijection(s[1], 'A');
    AlphabetBijection(s[2], 'A');
    Uint24RoundTrip(b0, b1, 0);
    assert Uint24Bytes(n)[..2] == [b0, b1];
  }

  /** Decoding reads a text of one group as the last group. */
  lemma DecodeSingle(q: string)
    requires |q| == 4
    ensures Decode(q) == DecodeLast(q[0], q[1], q[2], q[3])
  {
  }

  lemma EncodeOne(b0: Byte)
    ensures Decode(Encode([b0])) == Some([b0])
  {
    var q := EncodeGroup(b0, 0, 0);
    assert Encode([b0]) == [q[0], q[1], '=', '='];
    DecodeSingle(Encode([b0]));
    OneByteRoundTrip(b0);
  }

  lemma EncodeTwo(b0: Byte, b1: Byte)
    ensures Decode(Encode([b0, b1])) == Some([b0, b1])
  {
    var q := EncodeGroup(b0, b1, 0);
    assert Encode([b0, b1]) == [q[0], q[1], q[2], '='];
    DecodeSingle(Encode([b0, b1]));
    TwoBytesRoundTrip(b0, b1);
  }

  lemma EncodeThree(b0: Byte, b1: Byte, b2: Byte)
    ensures Decode(Encode([b0, b1, b2])) == Some([b0, b1, b2])
  {
    var q := EncodeGroup(b0, b1, b2);
    assert Encode([b0, b1, b2]) == q;
    DecodeSingle(q);
    GroupRoundTrip(b0, b1, b2);
    assert q[3] != '=';
  }

  /** Decoding a full group followed by more text. */
  lemma DecodeCons(q: string, rest: string, head: seq<Byte>, tail: seq<Byte>)
    requires |q| == 4 && rest != []
    requires DecodeGroup(q[0], q[1], q[2], q[3]) == Some(head)
    requires Decode(rest) == Some(tail)
    ensures Decode(q + rest) == Some(head + tail)
  {
    var s := q + rest;
    assert s[..4] == q && s[4..] == rest;
  }

  /** Decoding undoes encoding, for every byte string. */
  lemma {:induction false} DecodeEncode(bs: seq<Byte>)
    ensures Decode(Encode(bs)) == Some(bs)
    decreases |bs|
  {
    if bs == [] {
    } else if |bs| == 1 {
      assert bs == [bs[0]];
      EncodeOne(bs[0]);
    } else if |bs| == 2 {
      assert bs == [bs[0], bs[1]];
      EncodeTwo(bs[0], bs[1]);
    } else if |bs| == 3 {
      assert bs == [bs[0], bs[1], bs[2]];
      EncodeThree(bs[0], bs[1], bs[2]);
    } else {
      DecodeEncode(bs[3..]);
      DecodeEncodeGroups(bs);
    }
  }

  /** A full group followed by more bytes round-trips when the rest does. */
  lemma DecodeEncodeGroups(bs: seq<Byte>)
    requires |bs| > 3
    requires Decode(Encode(bs[3..])) == Some(bs[3..])
    ensures Decode(Encode(bs)) == Some(bs)
  {
    var tail := bs[3..];
    var q := EncodeGroup(bs[0], bs[1], bs[2]);
    EncodeFirstGroup(bs);
    GroupRoundTrip(bs[0], bs[1], bs[2]);
    EncodeNonEmpty(tail);
    DecodeCons(q, Encode(tail), [bs[0], bs[1], bs[2]], tail);
    SplitThree(bs);
  }

  lemma SplitThree(bs: seq<Byte>)
    requires |bs| >= 3
    ensures [bs[0], bs[1], bs[2]] + bs[3..] == bs
  {
  }

  lemma EncodeFirstGroup(bs: seq<Byte>)
    requires |bs| > 3
    ensures Encode(bs) == EncodeGroup(bs[0], bs[1], bs[2]) + Encode(bs[3..])
  {
  }

  /** Decoding a text of more than one group: the first group, then the rest. */
  lemma DecodeFirstGroup(s: string)
    requires |s| > 4
    ensures Decode(s).Some? <==> DecodeGroup(s[0], s[1], s[2], s[3]).Some? && Decode(s[4..]).Some?
    ensures Decode(s).Some? ==>
      Decode(s).value == DecodeGroup(s[0], s[1], s[2], s[3]).value + Decode(s[4..]).value
  {
  }

  /**
   * Whatever decodes came in whole groups of four, and each group gave
   * three bytes, except that the last may give one or two.
   */
  lemma {:induction false} DecodeSize(s: string)
    requires Decode(s).Some?
    ensures |s| % 4 == 0
    ensures 4 * |Decode(s).value| <= 3 * |s| <= 4 * |Decode(s).value| + 8
    decreases |s|
  {
    if |s| == 4 {
      DecodeSingle(s);
    } else if |s| > 4 {
      DecodeFirstGroup(s);
      DecodeSize(s[4..]);
      var k := |s[4..]| / 4;
      DivMod4(k, 0);
      DivMod4(k + 1, 0);
    }
  }

  lemma DivMod4(q: nat, r: nat)
    requires r < 4
    ensures (q * 4 + r) / 4 == q && (q * 4 + r) % 4 == r
  {
    var n := q * 4 + r;
    var d, e := n / 4, n % 4;
    assert n == d * 4 + e;
    assert (q - d) * 4 == e - r;
  }

  lemma EncodeNonEmpty(bs: seq<Byte>)
    requires bs != []
    ensures Encode(bs) != []
  {
  }

  /** A character that can appear in an encoding: an alphabet character or the pad. */
  predicate IsEncodingChar(c: char) {
    CharSextet(c).Some? || c == '='
  }

  predicate AllEncodingChars(s: string) {
    forall i :: 0 <= i < |s| ==> IsEncodingChar(s[i])
  }

  lemma GroupChars(b0: Byte, b1: Byte, b2: Byte)
    ensures AllEncodingChars(EncodeGroup(b0, b1, b2))
  {
    var s := Sextets(Uint24(b0, b1, b2));
    AlphabetBijection(s[0], 'A');
    AlphabetBijection(s[1], 'A');
    AlphabetBijection(s[2], 'A');
    AlphabetBijection(s[3], 'A');
  }

  /** An encoding consists of alphabet characters and pads only. */
  lemma {:induction false} EncodeChars(bs: seq<Byte>)
    ensures AllEncodingChars(Encode(bs))
    decreases |bs|
  {
    if |bs| == 1 {
      GroupChars(bs[0], 0, 0);
    } else if |bs| == 2 {
      GroupChars(bs[0], bs[1], 0);
    } else if |bs| > 2 {
      GroupChars(bs[0], bs[1], bs[2]);
      EncodeChars(bs[3..]);
      var g := EncodeGroup(bs[0], bs[1], bs[2]);
      var r := Encode(bs[3..]);
      assert forall i :: 0 <= i < |r| ==> (g + r)[4 + i] == r[i];
    }
  }
}
