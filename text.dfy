/**
 * The small part of Python's string library the core relies on, stated as
 * functions over `string` (a `seq<char>` of Unicode scalar values):
 * whitespace, strip, find, split, decimal and hexadecimal rendering and
 * the acceptance rules of int() and float().
 */
module Text {
  import opened Wrappers

  const CRLF: string := "\r\n"

  /** Python's str.isspace() for one character. */
  predicate IsSpace(c: char) {
    var n := c as int;
    (9 <= n <= 13) || (28 <= n <= 32) || n == 0x85 || n == 0xA0 || n == 0x1680
    || (0x2000 <= n <= 0x200A) || n == 0x2028 || n == 0x2029 || n == 0x202F
    || n == 0x205F || n == 0x3000
  }

  predicate NoSpace(s: string) {
    forall i :: 0 <= i < |s| ==> !IsSpace(s[i])
  }

  predicate AllSpace(s: string) {
    forall i :: 0 <= i < |s| ==> IsSpace(s[i])
  }

  /** s without its leading whitespace (Python's str.lstrip()). */
  function StripLeft(s: string): (r: string)
    ensures |r| <= |s| && r == s[|s| - |r|..]
    ensures r != [] ==> !IsSpace(r[0])
    decreases |s|
  {
    if s != [] && IsSpace(s[0]) then StripLeft(s[1..]) else s
  }

  /** Only whitespace is removed from the front. */
  lemma {:induction false} StripLeftRemovesSpace(s: string)
    ensures AllSpace(s[..|s| - |StripLeft(s)|])
    decreases |s|
  {
    if s != [] && IsSpace(s[0]) {
      StripLeftRemovesSpace(s[1..]);
      var k := |s| - |StripLeft(s)|;
      assert s[..k] == [s[0]] + s[1..][..k - 1];
    }
  }

  /** s without its trailing whitespace (Python's str.rstrip()). */
  function StripRight(s: string): (r: string)
    ensures |r| <= |s| && r == s[..|r|]
    ensures r != [] ==> !IsSpace(r[|r| - 1])
    decreases |s|
  {
    if s != [] && IsSpace(s[|s| - 1]) then StripRight(s[..|s| - 1]) else s
  }

  /** Only whitespace is removed from the back. */
  lemma {:induction false} StripRightRemovesSpace(s: string)
    ensures AllSpace(s[|StripRight(s)|..])
    decreases |s|
  {
    if s != [] && IsSpace(s[|s| - 1]) {
      StripRightRemovesSpace(s[..|s| - 1]);
      var k := |StripRight(s)|;
      assert s[k..] == s[..|s| - 1][k..] + [s[|s| - 1]];
    }
  }

  /** Python's str.strip() with no argument. */
  function Strip(s: string): string {
    StripRight(StripLeft(s))
  }

  lemma StripNoSpace(s: string)
    requires s == [] || (!IsSpace(s[0]) && !IsSpace(s[|s| - 1]))
    ensures Strip(s) == s
  {
  }

  predicate StartsWith<T(==)>(s: seq<T>, p: seq<T>) {
    |p| <= |s| && s[..|p|] == p
  }

  /** p occurs in s starting at index j. */
  predicate OccursAt<T(==)>(s: seq<T>, p: seq<T>, j: nat) {
    j + |p| <= |s| && s[j..j + |p|] == p
  }

  /** The first index at which p occurs in s (Python's find, with None for -1). */
  function Find<T(==)>(s: seq<T>, p: seq<T>): (r: Option<nat>)
    ensures r.Some? ==> OccursAt(s, p, r.value)
    ensures r.Some? ==> forall j :: 0 <= j < r.value ==> !OccursAt(s, p, j)
    ensures r.None? ==> forall j :: 0 <= j ==> !OccursAt(s, p, j)
    decreases |s|
  {
    if |p| > |s| then None
    else if s[..|p|] == p then Some(0)
    else
      assert !OccursAt(s, p, 0) by { assert s[0..|p|] == s[..|p|]; }
      var r := Find(s[1..], p);
      assert forall j :: 1 <= j ==> (OccursAt(s, p, j) <==> OccursAt(s[1..], p, j - 1)) by {
        forall j | 1 <= j
          ensures OccursAt(s, p, j) <==> OccursAt(s[1..], p, j - 1)
        {
          if j + |p| <= |s| {
            assert s[1..][j - 1..j - 1 + |p|] == s[j..j + |p|];
          }
        }
      }
      match r
      case None => None
      case Some(k) => Some(k + 1)
  }

  /** Python's `p in s` on strings and byte strings. */
  predicate Contains<T(==)>(s: seq<T>, p: seq<T>) {
    Find(s, p).Some?
  }

  /** Python's s.split(sep) for a non-empty separator. */
  function SplitOn(s: string, sep: string): (parts: seq<string>)
    requires |sep| > 0
    ensures |parts| >= 1
    decreases |s|
  {
    match Find(s, sep)
    case None => [s]
    case Some(i) => [s[..i]] + SplitOn(s[i + |sep|..], sep)
  }

  /** Python's sep.join(parts). */
  function JoinWith(parts: seq<string>, sep: string): string
    requires |parts| >= 1
  {
    if |parts| == 1 then parts[0] else parts[0] + sep + JoinWith(parts[1..], sep)
  }

  /** Splitting and joining again gives back the text, and no piece holds the separator. */
  lemma {:induction false} SplitOnJoin(s: string, sep: string)
    requires |sep| > 0
    ensures JoinWith(SplitOn(s, sep), sep) == s
    ensures forall k :: 0 <= k < |SplitOn(s, sep)| ==> !Contains(SplitOn(s, sep)[k], sep)
    decreases |s|
  {
    var f := Find(s, sep);
    if f.Some? {
      var i := f.value;
      var rest := s[i + |sep|..];
      var head := s[..i];
      assert SplitOn(s, sep) == [head] + SplitOn(rest, sep);
      SplitOnJoin(rest, sep);
      assert s == head + sep + rest by {
        assert s[i..i + |sep|] == sep;
      }
      HeadHasNoSeparator(s, sep, i);
    }
  }

  lemma HeadHasNoSeparator(s: string, sep: string, i: nat)
    requires |sep| > 0 && i <= |s| && forall j :: 0 <= j < i ==> !OccursAt(s, sep, j)
    ensures !Contains(s[..i], sep)
  {
    var head := s[..i];
    forall j: nat ensures !OccursAt(head, sep, j) {
      if j + |sep| <= |head| {
        assert head[j..j + |sep|] == s[j..j + |sep|];
        assert OccursAt(head, sep, j) == OccursAt(s, sep, j);
      }
    }
  }

  /** A line without carriage return, a CRLF and more text split at the first CRLF. */
  lemma SplitCrlfCons(a: string, b: string)
    requires '\r' !in a
    ensures SplitOn(a + CRLF + b, CRLF) == [a] + SplitOn(b, CRLF)
  {
    var s := a + CRLF + b;
    assert OccursAt(s, CRLF, |a|);
    forall j | 0 <= j < |a| ensures !OccursAt(s, CRLF, j) {
      assert s[j] == a[j];
      if j + 2 <= |s| {
        assert s[j..j + 2][0] == s[j];
      }
    }
    assert s[..|a|] == a;
    assert s[|a| + 2..] == b;
  }

  /** A text without a carriage return is one piece. */
  lemma SplitCrlfSingle(a: string)
    requires '\r' !in a
    ensures SplitOn(a, CRLF) == [a]
  {
    forall j | 0 <= j ensures !OccursAt(a, CRLF, j) {
      if j + 2 <= |a| {
        assert a[j..j + 2][0] == a[j];
      }
    }
  }

  /** Lines each ended by CRLF, as the HTTP and sourcetable builders concatenate them. */
  function JoinLines(lines: seq<string>): string
    decreases |lines|
  {
    if lines == [] then [] else lines[0] + CRLF + JoinLines(lines[1..])
  }

  /** A reader splitting on CRLF gets the lines back, and an empty piece after the last CRLF. */
  lemma {:induction false} SplitJoinLines(lines: seq<string>)
    requires forall k :: 0 <= k < |lines| ==> '\r' !in lines[k]
    ensures SplitOn(JoinLines(lines), CRLF) == lines + [""]
    decreases |lines|
  {
    if lines == [] {
      SplitCrlfSingle("");
    } else {
      SplitCrlfCons(lines[0], JoinLines(lines[1..]));
      SplitJoinLines(lines[1..]);
      assert [lines[0]] + lines[1..] == lines;
    }
  }

  /** A piece without c, then c, then more text split at that c. */
  lemma SplitCharCons(a: string, c: char, b: string)
    requires c !in a
    ensures SplitOn(a + [c] + b, [c]) == [a] + SplitOn(b, [c])
  {
    var s := a + [c] + b;
    assert OccursAt(s, [c], |a|) by {
      assert s[|a|..|a| + 1] == [c];
    }
    forall j | 0 <= j < |a| ensures !OccursAt(s, [c], j) {
      assert s[j] == a[j];
      assert s[j..j + 1][0] == s[j];
    }
    assert s[..|a|] == a;
    assert s[|a| + 1..] == b;
  }

  lemma SplitCharSingle(a: string, c: char)
    requires c !in a
    ensures SplitOn(a, [c]) == [a]
  {
    forall j | 0 <= j ensures !OccursAt(a, [c], j) {
      if j + 1 <= |a| {
        assert a[j..j + 1][0] == a[j];
      }
    }
  }

  /** Splitting a join on a one-character separator that no piece holds gives the pieces back. */
  lemma {:induction false} SplitJoinChar(parts: seq<string>, c: char)
    requires |parts| >= 1
    requires forall k :: 0 <= k < |parts| ==> c !in parts[k]
    ensures SplitOn(JoinWith(parts, [c]), [c]) == parts
    decreases |parts|
  {
    if |parts| == 1 {
      SplitCharSingle(parts[0], c);
    } else {
      SplitCharCons(parts[0], c, JoinWith(parts[1..], [c]));
      SplitJoinChar(parts[1..], c);
      assert [parts[0]] + parts[1..] == parts;
    }
  }

  /** Python's s.split(c, 1) unpacked into two names: None when c does not occur. */
  function SplitOnce(s: string, c: char): (r: Option<(string, string)>)
    ensures r.None? <==> c !in s
    ensures r.Some? ==> s == r.value.0 + [c] + r.value.1 && c !in r.value.0
    decreases |s|
  {
    if s == [] then None
    else if s[0] == c then Some(([], s[1..]))
    else match SplitOnce(s[1..], c)
      case None => None
      case Some(p) => Some(([s[0]] + p.0, p.1))
  }

  /** Splitting once at c finds the first c. */
  lemma {:induction false} SplitOnceAt(a: string, c: char, b: string)
    requires c !in a
    ensures SplitOnce(a + [c] + b, c) == Some((a, b))
    decreases |a|
  {
    var s := a + [c] + b;
    if a == [] {
      assert s == [c] + b;
    } else {
      assert s[1..] == a[1..] + [c] + b;
      SplitOnceAt(a[1..], c, b);
      assert [a[0]] + a[1..] == a;
    }
  }

  /** The leading run of non-whitespace characters of s. */
  function Word(s: string): (w: string)
    ensures |w| <= |s| && w == s[..|w|] && NoSpace(w)
    ensures |w| < |s| ==> IsSpace(s[|w|])
    decreases |s|
  {
    if s == [] || IsSpace(s[0]) then [] else [s[0]] + Word(s[1..])
  }

  /** Every element is a non-empty run of non-whitespace. */
  predicate AllWords(words: seq<string>) {
    forall k :: 0 <= k < |words| ==> words[k] != [] && NoSpace(words[k])
  }

  /** Python's s.split() with no argument: the maximal runs of non-whitespace. */
  function SplitWhitespace(s: string): (words: seq<string>)
    ensures AllWords(words)
    decreases |s|
  {
    var t := StripLeft(s);
    if t == [] then []
    else
      var w := Word(t);
      assert w != [] && w[0] == t[0];
      var rest := SplitWhitespace(t[|w|..]);
      AllWordsCons(w, rest);
      [w] + rest
  }

  lemma AllWordsCons(w: string, ws: seq<string>)
    requires w != [] && NoSpace(w) && AllWords(ws)
    ensures AllWords([w] + ws)
  {
    assert forall k :: 1 <= k < |ws| + 1 ==> ([w] + ws)[k] == ws[k - 1];
  }

  lemma WordOfConcat(a: string, b: string)
    requires NoSpace(a) && (b == [] || IsSpace(b[0]))
    ensures Word(a + b) == a
    decreases |a|
  {
    if a != [] {
      assert (a + b)[1..] == a[1..] + b;
      WordOfConcat(a[1..], b);
    }
  }

  /** The words of "a b" are those of a followed by b's, when a is one word. */
  lemma SplitWhitespaceCons(a: string, b: string)
    requires a != [] && NoSpace(a)
    ensures SplitWhitespace(a + " " + b) == [a] + SplitWhitespace(" " + b)
  {
    var s := a + " " + b;
    assert StripLeft(s) == s;
    assert s == a + (" " + b);
    WordOfConcat(a, " " + b);
    assert s[|a|..] == " " + b;
  }

  /** Leading whitespace does not change the words. */
  lemma SplitWhitespaceLeadingSpace(x: string)
    ensures SplitWhitespace(" " + x) == SplitWhitespace(x)
  {
    assert (" " + x)[1..] == x;
  }

  lemma SplitWhitespaceWord(a: string)
    requires a != [] && NoSpace(a)
    ensures SplitWhitespace(" " + a) == [a]
  {
    var s := " " + a;
    assert StripLeft(s) == a by {
      assert s[1..] == a;
    }
    assert Word(a) == a by {
      WordOfConcat(a, []);
      assert a + [] == a;
    }
    assert a[|a|..] == [];
  }

  /** Words joined by single spaces split back into the same words. */
  lemma {:induction false} SplitJoinWords(words: seq<string>)
    requires |words| >= 1 && AllWords(words)
    ensures SplitWhitespace(JoinWith(words, " ")) == words
    decreases |words|, 1
  {
    if |words| == 1 {
      SplitJoinWord(words[0]);
      assert words == [words[0]];
    } else {
      assert AllWords(words[1..]) by {
        assert forall k :: 0 <= k < |words| - 1 ==> words[1..][k] == words[k + 1];
      }
      SplitJoinWordsStep(words);
    }
  }

  lemma SplitJoinWord(w: string)
    requires w != [] && NoSpace(w)
    ensures SplitWhitespace(JoinWith([w], " ")) == [w]
  {
    SplitWhitespaceWord(w);
    SplitWhitespaceLeadingSpace(w);
  }

  lemma {:induction false} SplitJoinWordsStep(words: seq<string>)
    requires |words| >= 2 && words[0] != [] && NoSpace(words[0]) && AllWords(words[1..])
    ensures SplitWhitespace(JoinWith(words, " ")) == words
    decreases |words|, 0
  {
    SplitJoinWords(words[1..]);
    SplitJoinCons(words[0], words[1..]);
    assert [words[0]] + words[1..] == words;
  }

  lemma SplitJoinCons(w: string, tail: seq<string>)
    requires w != [] && NoSpace(w) && |tail| >= 1
    requires SplitWhitespace(JoinWith(tail, " ")) == tail
    ensures SplitWhitespace(JoinWith([w] + tail, " ")) == [w] + tail
  {
    var rest := JoinWith(tail, " ");
    assert ([w] + tail)[1..] == tail;
    assert JoinWith([w] + tail, " ") == w + " " + rest;
    SplitWhitespaceCons(w, rest);
    SplitWhitespaceLeadingSpace(rest);
  }

  // ---- decimal numbers ----

  predicate IsDigit(c: char) {
    '0' <= c <= '9'
  }

  predicate AllDigits(s: string) {
    forall i :: 0 <= i < |s| ==> IsDigit(s[i])
  }

  function DigitChar(d: nat): (c: char)
    requires d < 10
    ensures IsDigit(c)
  {
    (48 + d) as char
  }

  /** Python's str(n) for a natural number. */
  function NatToDecimal(n: nat): (s: string)
    ensures |s| >= 1 && AllDigits(s)
    ensures s[0] == '0' ==> n == 0
    decreases n
  {
    if n < 10 then [DigitChar(n)] else NatToDecimal(n / 10) + [DigitChar(n % 10)]
  }

  /**
   * Python's digit groups: one or more ASCII digits, where a single '_' may stand
   * between two digits ("1_000"), but not first, last or twice in a row.
   */
  predicate IsDigitGroups(s: string) {
    && s != []
    && DigitsOrUnderscores(s)
    && forall i :: 0 <= i < |s| && s[i] == '_' ==> 0 < i < |s| - 1 && IsDigit(s[i - 1]) && IsDigit(s[i + 1])
  }

  predicate DigitsOrUnderscores(s: string) {
    forall i :: 0 <= i < |s| ==> IsDigit(s[i]) || s[i] == '_'
  }

  /** The value of a string of decimal digits; the '_' separators carry no value. */
  function DecimalValue(s: string): nat
    requires DigitsOrUnderscores(s)
  {
    if s == [] then 0
    else if s[|s| - 1] == '_' then DecimalValue(s[..|s| - 1])
    else DecimalValue(s[..|s| - 1]) * 10 + (s[|s| - 1] as int - 48)
  }

  lemma {:induction false} DecimalRoundTrip(n: nat)
    ensures DecimalValue(NatToDecimal(n)) == n
    decreases n
  {
    if n >= 10 {
      DecimalRoundTrip(n / 10);
      var s := NatToDecimal(n);
      assert s[..|s| - 1] == NatToDecimal(n / 10);
    }
  }

  lemma DigitsHaveNoSpace(s: string)
    requires AllDigits(s)
    ensures NoSpace(s) && '\r' !in s && ';' !in s
  {
    forall i | 0 <= i < |s| ensures !IsSpace(s[i]) {
      DigitIsNotSpace(s[i]);
    }
  }

  /** Python's str(i) for an integer. */
  function IntToString(i: int): string {
    if i < 0 then "-" + NatToDecimal(-i) else NatToDecimal(i)
  }

  /**
   * Python's int(s) for base 10: surrounding whitespace, an optional sign and
   * digit groups (ASCII digits, single '_' between two of them); anything else
   * raises ValueError (here None).
   */
  function ParseInt(s: string): Option<int> {
    ParseSigned(Strip(s))
  }

  /** int() on an already stripped string: an optional sign, then digit groups. */
  function ParseSigned(t: string): Option<int> {
    if t == [] then None
    else
      var neg := t[0] == '-';
      var digits := if t[0] == '-' || t[0] == '+' then t[1..] else t;
      if IsDigitGroups(digits)
      then Some(if neg then -(DecimalValue(digits) as int) else DecimalValue(digits))
      else None
  }

  lemma ParseIntRoundTrip(i: int)
    ensures ParseInt(IntToString(i)) == Some(i)
  {
    var n: nat := if i < 0 then -i else i;
    var d := NatToDecimal(n);
    DecimalRoundTrip(n);
    if i < 0 {
      var s := IntToString(i);
      assert s == "-" + d && s[1..] == d;
      ParseMinusDigits(s, d, n);
    } else {
      ParseDigits(d, n);
    }
  }

  /** int() reads single underscores between digits ... */
  lemma ParseIntUnderscore()
    ensures ParseInt("1_0") == Some(10)
  {
    StripNoSpace("1_0");
    assert DecimalValue("1_0") == 10 by {
      assert "1_0"[..2] == "1_";
      assert "1_"[..1] == "1";
      assert "1"[..0] == [];
    }
  }

  lemma ParseIntSignedUnderscores()
    ensures ParseInt("-2_5_0") == Some(-250)
  {
    var t := "-2_5_0";
    StripNoSpace(t);
    var d := t[1..];
    assert d == "2_5_0";
    assert "2"[..0] == [] && "2_"[..1] == "2" && "2_5"[..2] == "2_";
    assert "2_5_"[..3] == "2_5" && d[..4] == "2_5_";
    assert DecimalValue("2_5") == 25;
    assert DecimalValue(d) == 250;
  }

  /** ... and refuses them twice in a row, first or last. */
  lemma ParseIntDoubledUnderscore()
    ensures ParseInt("1__0") == None
  {
    StripNoSpace("1__0");
    assert !IsDigitGroups("1__0") by {
      assert "1__0"[1] == '_' && "1__0"[2] == '_' && !IsDigit('_');
    }
  }

  lemma ParseIntLeadingUnderscore()
    ensures ParseInt("_1") == None
  {
    StripNoSpace("_1");
    assert "_1"[0] == '_';
  }

  lemma ParseIntTrailingUnderscore()
    ensures ParseInt("1_") == None
  {
    StripNoSpace("1_");
    assert "1_"[1] == '_';
  }

  lemma DigitIsNotSpace(c: char)
    requires IsDigit(c)
    ensures !IsSpace(c)
  {
  }

  /** A string of digits parses to its value. */
  lemma ParseDigits(d: string, n: nat)
    requires d != [] && AllDigits(d) && DecimalValue(d) == n
    ensures ParseInt(d) == Some(n)
  {
    DigitIsNotSpace(d[0]);
    DigitIsNotSpace(d[|d| - 1]);
    StripNoSpace(d);
    assert d[0] != '-' && d[0] != '+';
  }

  /** '-' and a string of digits parse to minus their value. */
  lemma ParseMinusDigits(s: string, d: string, n: nat)
    requires d != [] && AllDigits(d) && DecimalValue(d) == n
    requires |s| == |d| + 1 && s[0] == '-' && s[1..] == d
    ensures ParseInt(s) == Some(-(n as int))
  {
    DigitIsNotSpace(d[|d| - 1]);
    assert s[|s| - 1] == d[|d| - 1];
    StripNoSpace(s);
    assert ParseSigned(s) == Some(-(n as int)) by {
      assert s != [] && s[0] == '-';
    }
  }

  // ---- hexadecimal ----

  function HexDigit(d: nat): (c: char)
    requires d < 16
    ensures IsUpperHex(c)
  {
    if d < 10 then (48 + d) as char else (55 + d) as char
  }

  predicate IsUpperHex(c: char) {
    ('0' <= c <= '9') || ('A' <= c <= 'F')
  }

  predicate AllUpperHex(s: string) {
    forall i :: 0 <= i < |s| ==> IsUpperHex(s[i])
  }

  function HexDigitValue(c: char): (d: nat)
    requires IsUpperHex(c)
    ensures d < 16 && HexDigit(d) == c
  {
    if c <= '9' then c as int - 48 else c as int - 55
  }

  /** Uppercase hexadecimal digits of n, without leading zeros. */
  function NatToHex(n: nat): (s: string)
    ensures |s| >= 1 && AllUpperHex(s)
    decreases n
  {
    if n < 16 then [HexDigit(n)] else NatToHex(n / 16) + [HexDigit(n % 16)]
  }

  /** Python's f"{n:02X}": uppercase hex, zero-padded to at least two digits. */
  function Hex02(n: nat): (s: string)
    ensures AllUpperHex(s)
  {
    if n < 16 then "0" + NatToHex(n) else NatToHex(n)
  }

  function HexValue(s: string): nat
    requires AllUpperHex(s)
  {
    if s == [] then 0 else HexValue(s[..|s| - 1]) * 16 + HexDigitValue(s[|s| - 1])
  }

  lemma {:induction false} HexRoundTrip(n: nat)
    ensures HexValue(NatToHex(n)) == n
    decreases n
  {
    if n >= 16 {
      HexRoundTrip(n / 16);
      var s := NatToHex(n);
      assert s[..|s| - 1] == NatToHex(n / 16);
    } else {
      assert HexDigitValue(HexDigit(n)) == n;
    }
  }

  lemma {:induction false} NatToHexLength(n: nat, k: nat)
    requires k >= 1
    ensures |NatToHex(n)| <= k <==> n < Pow16(k)
    decreases n
  {
    if n >= 16 {
      if k == 1 {
        assert Pow16(1) == 16 by { assert Pow16(0) == 1; }
        assert |NatToHex(n)| >= 2;
      } else {
        NatToHexLength(n / 16, k - 1);
      }
    } else {
      Pow16Positive(k - 1);
    }
  }

  function Pow16(k: nat): nat {
    if k == 0 then 1 else 16 * Pow16(k - 1)
  }

  lemma Pow16Positive(k: nat)
    ensures Pow16(k) >= 1
  {
  }

  /** Two-digit checksums: the rendering has exactly two digits iff n fits in a byte, and reads back as n. */
  lemma Hex02Facts(n: nat)
    ensures |Hex02(n)| >= 2
    ensures |Hex02(n)| == 2 <==> n < 256
    ensures HexValue(Hex02(n)) == n
  {
    HexRoundTrip(n);
    NatToHexLength(n, 2);
    NatToHexLength(n, 1);
    assert Pow16(2) == 256 && Pow16(1) == 16 by {
      assert Pow16(0) == 1;
    }
    if n < 16 {
      var s := Hex02(n);
      assert s[..|s| - 1] == "0";
      assert HexValue("0") == 0 by {
        assert "0"[..0] == [];
      }
    }
  }

  // ---- Python's float() acceptance, on text ----

  function LowerAscii(s: string): (r: string)
    ensures |r| == |s|
  {
    if s == [] then []
    else [if 'A' <= s[0] <= 'Z' then (s[0] as int + 32) as char else s[0]] + LowerAscii(s[1..])
  }

  /** digits ("." digits?)? | "." digits, then an optional exponent. */
  predicate IsDecimalLiteral(t: string) {
    var e := Find(LowerAscii(t), "e");
    var mantissa := if e.Some? then t[..e.value] else t;
    var exponent := if e.Some? then t[e.value + 1..] else "1";
    && IsMantissa(mantissa)
    && IsSignedDigits(exponent)
  }

  predicate IsMantissa(m: string) {
    match SplitOnce(m, '.')
    case None => IsDigitGroups(m)
    case Some(p) =>
      && (p.0 == [] || IsDigitGroups(p.0))
      && (p.1 == [] || IsDigitGroups(p.1))
      && (p.0 != [] || p.1 != [])
  }

  predicate IsSignedDigits(s: string) {
    var d := if s != [] && (s[0] == '+' || s[0] == '-') then s[1..] else s;
    IsDigitGroups(d)
  }

  /**
   * Python's float(s) succeeds: surrounding whitespace, an optional sign, then a
   * decimal literal (its digit parts may hold single '_' separators, as int()'s
   * do) or one of inf, infinity, nan (any letter case).
   */
  predicate IsFloatText(s: string) {
    var t := Strip(s);
    var body := if t != [] && (t[0] == '+' || t[0] == '-') then t[1..] else t;
    LowerAscii(body) in {"inf", "infinity", "nan"} || IsDecimalLiteral(body)
  }

  /** float() takes the same digit groups in its mantissa and exponent. */
  lemma FloatUnderscores(t: string)
    requires t == "1_0.5"
    ensures IsFloatText(t)
  {
    UnderscoreTextEnds(t);
    UnderscoreTextHasNoE(t);
    NoUpperAscii(t);
    MantissaUnderscores(t);
    DecimalLiteralText(t);
  }

  lemma UnderscoreTextEnds(t: string)
    requires t == "1_0.5"
    ensures IsDigit(t[0]) && !IsSpace(t[|t| - 1])
  {
  }

  lemma UnderscoreTextHasNoE(t: string)
    requires t == "1_0.5"
    ensures 'e' !in t
  {
  }

  /** A mantissa with no exponent that starts with a digit and holds no upper-case letter is float text. */
  lemma DecimalLiteralText(t: string)
    requires t != [] && IsDigit(t[0]) && !IsSpace(t[|t| - 1])
    requires 'e' !in t && LowerAscii(t) == t && IsMantissa(t)
    ensures IsFloatText(t)
  {
    DigitIsNotSpace(t[0]);
    StripNoSpace(t);
    PlainMantissaLiteral(t);
    assert LowerAscii(t)[0] == t[0];
    assert LowerAscii(t) !in {"inf", "infinity", "nan"} by {
      assert !IsDigit('i') && !IsDigit('n');
    }
  }

  /** A mantissa without an 'e' is a decimal literal with the default exponent. */
  lemma PlainMantissaLiteral(t: string)
    requires 'e' !in LowerAscii(t) && IsMantissa(t)
    ensures IsDecimalLiteral(t)
  {
    FindMissing(LowerAscii(t), 'e');
    assert "e" == ['e'];
  }

  lemma NoUpperAscii(t: string)
    requires t == "1_0.5"
    ensures LowerAscii(t) == t
  {
    LowerNoUpper(t);
  }

  lemma MantissaUnderscores(t: string)
    requires t == "1_0.5"
    ensures IsMantissa(t)
  {
    assert "1_0.5" == "1_0" + ['.'] + "5";
    SplitOnceAt("1_0", '.', "5");
    assert IsDigitGroups("1_0") && IsDigitGroups("5");
  }

  lemma FindMissing(s: string, c: char)
    requires c !in s
    ensures Find(s, [c]) == None
  {
    forall j: nat ensures !OccursAt(s, [c], j) {
      if j + 1 <= |s| {
        assert s[j..j + 1][0] == s[j];
      }
    }
  }

  lemma {:induction false} LowerNoUpper(s: string)
    requires forall i :: 0 <= i < |s| ==> !('A' <= s[i] <= 'Z')
    ensures LowerAscii(s) == s
  {
    if s != [] {
      LowerNoUpper(s[1..]);
    }
  }
}
