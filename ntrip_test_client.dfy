/**
 * The NTRIP test client: the request it sends when connecting, how it
 * reads the caster's answer, the frame scanner it runs over the received
 * bytes (parse_rtcm3, no CRC check) and the counters of its receive loop.
 */
module NtripTestClient {
  import opened Wrappers
  import opened Bytes
  import Text
  import Base64
  import Utf8
  import Rtcm
  import Ntrip

  // ---- parse_rtcm3 ----

  /** One scanned message: the type number and the whole frame. */
  datatype Message = Message(messageType: nat, data: seq<Byte>)

  /** The messages parse_rtcm3 returns when its index has reached i. */
  function Scan(data: seq<Byte>, i: nat): seq<Message>
    decreases |data| - i
  {
    if i >= |data| then []
    else if data[i] != Preamble then Scan(data, i + 1)
    else if i + 6 > |data| then []
    else
      var msgLen := Rtcm.DeclaredLength(data[i + 1], data[i + 2]);
      if i + msgLen + 6 > |data| then []
      else
        (if msgLen >= 2 then [Message(Rtcm.MessageType(data[i + 3], data[i + 4]), data[i..i + msgLen + 6])] else [])
        + Scan(data, i + msgLen + 6)
  }

  /** Where each message of Scan(data, i) starts in data. */
  ghost function ScanStarts(data: seq<Byte>, i: nat): seq<nat>
    decreases |data| - i
  {
    if i >= |data| then []
    else if data[i] != Preamble then ScanStarts(data, i + 1)
    else if i + 6 > |data| then []
    else
      var msgLen := Rtcm.DeclaredLength(data[i + 1], data[i + 2]);
      if i + msgLen + 6 > |data| then []
      else (if msgLen >= 2 then [i] else []) + ScanStarts(data, i + msgLen + 6)
  }

  /** m is the frame found at position start of data, with its header read as parse_rtcm3 reads it. */
  predicate ScannedAt(data: seq<Byte>, start: nat, m: Message) {
    && start + |m.data| <= |data|
    && m.data == data[start..start + |m.data|]
    && |m.data| >= 8
    && m.data[0] == Preamble
    && |m.data| == Rtcm.DeclaredLength(m.data[1], m.data[2]) + 6
    && m.messageType == Rtcm.MessageType(m.data[3], m.data[4])
    && m.messageType < 4096
  }

  /**
   * The messages ms lie at the positions starts, the first at or after i,
   * each one starting at or after the end of the one before.
   */
  ghost predicate LaidOut(data: seq<Byte>, i: nat, ms: seq<Message>, starts: seq<nat>)
    decreases |ms|
  {
    && |starts| == |ms|
    && (ms != [] ==>
      && i <= starts[0] && ScannedAt(data, starts[0], ms[0])
      && LaidOut(data, starts[0] + |ms[0].data|, ms[1..], starts[1..]))
  }

  lemma LaidOutFrom(data: seq<Byte>, i: nat, j: nat, ms: seq<Message>, starts: seq<nat>)
    requires i <= j && LaidOut(data, j, ms, starts)
    ensures LaidOut(data, i, ms, starts)
  {
  }

  /**
   * Every returned message is a frame of the input that starts with the
   * preamble, is as long as its header says (at least two payload bytes)
   * and carries the payload's leading 12 bits as its type; the messages
   * come in stream order and do not overlap.
   */
  lemma {:induction false} ScanLayout(data: seq<Byte>, i: nat)
    ensures LaidOut(data, i, Scan(data, i), ScanStarts(data, i))
    decreases |data| - i
  {
    if i < |data| {
      if data[i] != Preamble {
        ScanLayout(data, i + 1);
        ScanLayoutSkip(data, i);
      } else if i + 6 <= |data| && i + Rtcm.DeclaredLength(data[i + 1], data[i + 2]) + 6 <= |data| {
        ScanLayout(data, i + Rtcm.DeclaredLength(data[i + 1], data[i + 2]) + 6);
        ScanLayoutFrame(data, i);
      }
    }
  }

  lemma ScanLayoutSkip(data: seq<Byte>, i: nat)
    requires i < |data| && data[i] != Preamble
    requires LaidOut(data, i + 1, Scan(data, i + 1), ScanStarts(data, i + 1))
    ensures LaidOut(data, i, Scan(data, i), ScanStarts(data, i))
  {
    LaidOutFrom(data, i, i + 1, Scan(data, i + 1), ScanStarts(data, i + 1));
  }

  lemma ScanLayoutFrame(data: seq<Byte>, i: nat)
    requires i + 6 <= |data| && data[i] == Preamble
    requires var next := i + Rtcm.DeclaredLength(data[i + 1], data[i + 2]) + 6;
      next <= |data| && LaidOut(data, next, Scan(data, next), ScanStarts(data, next))
    ensures LaidOut(data, i, Scan(data, i), ScanStarts(data, i))
  {
    var msgLen := Rtcm.DeclaredLength(data[i + 1], data[i + 2]);
    var next := i + msgLen + 6;
    var ms, starts := Scan(data, next), ScanStarts(data, next);
    if msgLen >= 2 {
      var m := Message(Rtcm.MessageType(data[i + 3], data[i + 4]), data[i..next]);
      assert Scan(data, i) == [m] + ms;
      assert ScanStarts(data, i) == [i] + starts;
      ScannedFrame(data, i);
      assert ([m] + ms)[1..] == ms && ([i] + starts)[1..] == starts;
    } else {
      assert Scan(data, i) == ms;
      assert ScanStarts(data, i) == starts;
      LaidOutFrom(data, i, next, ms, starts);
    }
  }

  /** A complete frame with at least two payload bytes at i is read as a message. */
  lemma ScannedFrame(data: seq<Byte>, i: nat)
    requires i + 6 <= |data| && data[i] == Preamble
    requires var msgLen := Rtcm.DeclaredLength(data[i + 1], data[i + 2]);
      msgLen >= 2 && i + msgLen + 6 <= |data|
    ensures var next := i + Rtcm.DeclaredLength(data[i + 1], data[i + 2]) + 6;
      ScannedAt(data, i, Message(Rtcm.MessageType(data[i + 3], data[i + 4]), data[i..next]))
  {
    var next := i + Rtcm.DeclaredLength(data[i + 1], data[i + 2]) + 6;
    var f := data[i..next];
    assert f[0] == data[i] && f[1] == data[i + 1] && f[2] == data[i + 2];
    assert f[3] == data[i + 3] && f[4] == data[i + 4];
  }

  /** parse_rtcm3: walks the index over the bytes, collecting the complete frames. */
  method ParseRtcm3(data: seq<Byte>) returns (messages: seq<Message>)
    ensures messages == Scan(data, 0)
  {
    messages := [];
    var i := 0;
    while i < |data|
      invariant messages + Scan(data, i) == Scan(data, 0)
      decreases |data| - i
    {
      if data[i] != Preamble {
        i := i + 1;
        continue;
      }
      if i + 6 > |data| {
        break;
      }
      var msgLen := Rtcm.DeclaredLength(data[i + 1], data[i + 2]);
      var total := msgLen + 6;
      if i + total > |data| {
        break;
      }
      if msgLen >= 2 {
        var m := Message(Rtcm.MessageType(data[i + 3], data[i + 4]), data[i..i + total]);
        assert messages + Scan(data, i) == (messages + [m]) + Scan(data, i + total);
        messages := messages + [m];
      }
      i := i + total;
    }
    assert messages + [] == messages;
  }

  /** Moving the scan behind a prefix: positions shift by the prefix's length. */
  lemma {:induction false} ScanShift(p: seq<Byte>, d: seq<Byte>, i: nat)
    ensures Scan(p + d, |p| + i) == Scan(d, i)
    decreases |d| - i
  {
    if i < |d| {
      assert (p + d)[|p| + i] == d[i];
      if d[i] != Preamble {
        ScanShift(p, d, i + 1);
      } else if i + 6 <= |d| {
        if i + Rtcm.DeclaredLength(d[i + 1], d[i + 2]) + 6 <= |d| {
          ScanShift(p, d, i + Rtcm.DeclaredLength(d[i + 1], d[i + 2]) + 6);
        }
        ScanShiftHeader(p, d, i);
      }
    }
  }

  /** One step of ScanShift at a preamble: the header reads the same behind the prefix. */
  lemma ScanShiftHeader(p: seq<Byte>, d: seq<Byte>, i: nat)
    requires i + 6 <= |d| && d[i] == Preamble
    requires var n := Rtcm.DeclaredLength(d[i + 1], d[i + 2]);
      i + n + 6 <= |d| ==> Scan(p + d, |p| + i + n + 6) == Scan(d, i + n + 6)
    ensures Scan(p + d, |p| + i) == Scan(d, i)
  {
    var s := p + d;
    var j := |p| + i;
    assert s[j] == d[i] && s[j + 1] == d[i + 1] && s[j + 2] == d[i + 2];
    var msgLen := Rtcm.DeclaredLength(d[i + 1], d[i + 2]);
    if i + msgLen + 6 <= |d| {
      assert s[j + 3] == d[i + 3] && s[j + 4] == d[i + 4];
      assert s[j..j + msgLen + 6] == d[i..i + msgLen + 6];
      ScanShiftFrame(s, d, j, i);
    }
  }

  /** Two frames with the same header bytes and the same bytes are scanned alike. */
  lemma ScanShiftFrame(s: seq<Byte>, d: seq<Byte>, j: nat, i: nat)
    requires i + 6 <= |d| && j + 6 <= |s| && d[i] == Preamble
    requires s[j] == d[i] && s[j + 1] == d[i + 1] && s[j + 2] == d[i + 2]
    requires s[j + 3] == d[i + 3] && s[j + 4] == d[i + 4]
    requires var n := Rtcm.DeclaredLength(d[i + 1], d[i + 2]);
      && i + n + 6 <= |d| && j + n + 6 <= |s|
      && s[j..j + n + 6] == d[i..i + n + 6]
      && Scan(s, j + n + 6) == Scan(d, i + n + 6)
    ensures Scan(s, j) == Scan(d, i)
  {
    ScanAtFrame(s, j);
    ScanAtFrame(d, i);
  }

  /** Scan at a preamble whose frame fits: that frame, when long enough, then the scan after it. */
  lemma ScanAtFrame(data: seq<Byte>, i: nat)
    requires i + 6 <= |data| && data[i] == Preamble
    requires i + Rtcm.DeclaredLength(data[i + 1], data[i + 2]) + 6 <= |data|
    ensures var n := Rtcm.DeclaredLength(data[i + 1], data[i + 2]);
      Scan(data, i)
      == (if n >= 2 then [Message(Rtcm.MessageType(data[i + 3], data[i + 4]), data[i..i + n + 6])] else [])
        + Scan(data, i + n + 6)
  {
  }

  /** Bytes without a preamble are skipped one at a time and contribute nothing. */
  lemma {:induction false} ScanSkipsNoise(noise: seq<Byte>, d: seq<Byte>, j: nat)
    requires Preamble !in noise && j <= |noise|
    ensures Scan(noise + d, j) == Scan(noise + d, |noise|)
    decreases |noise| - j
  {
    if j < |noise| {
      assert (noise + d)[j] == noise[j];
      ScanSkipsNoise(noise, d, j + 1);
    }
  }

  /** Leading bytes that hold no preamble do not change what is found. */
  lemma ScanIgnoresNoise(noise: seq<Byte>, d: seq<Byte>)
    requires Preamble !in noise
    ensures Scan(noise + d, 0) == Scan(d, 0)
  {
    ScanSkipsNoise(noise, d, 0);
    ScanShift(noise, d, 0);
  }

  /** A frame as parse_rtcm3 recognises it; the CRC is not part of it. */
  predicate ScannableFrame(f: seq<Byte>) {
    |f| >= 8 && f[0] == Preamble && |f| == Rtcm.DeclaredLength(f[1], f[2]) + 6
  }

  /** A frame at the front of the stream is reported whole, whatever its CRC, then scanning goes on after it. */
  lemma ScanFrameThen(f: seq<Byte>, rest: seq<Byte>)
    requires ScannableFrame(f)
    ensures Scan(f + rest, 0) == [Message(Rtcm.MessageType(f[3], f[4]), f)] + Scan(rest, 0)
  {
    var s := f + rest;
    assert s[0] == f[0] && s[1] == f[1] && s[2] == f[2] && s[3] == f[3] && s[4] == f[4];
    assert s[0..|f|] == f;
    ScanShift(f, rest, 0);
  }

  /** A frame whose declared length is under two bytes is passed over without a message. */
  lemma ScanSkipsShortFrame(f: seq<Byte>, rest: seq<Byte>)
    requires |f| >= 6 && f[0] == Preamble && |f| == Rtcm.DeclaredLength(f[1], f[2]) + 6 && |f| < 8
    ensures Scan(f + rest, 0) == Scan(rest, 0)
  {
    var s := f + rest;
    assert s[0] == f[0] && s[1] == f[1] && s[2] == f[2];
    ScanShift(f, rest, 0);
  }

  function Concat(frames: seq<seq<Byte>>): seq<Byte>
    decreases |frames|
  {
    if frames == [] then [] else frames[0] + Concat(frames[1..])
  }

  function Messages(frames: seq<seq<Byte>>): seq<Message>
    requires forall k :: 0 <= k < |frames| ==> ScannableFrame(frames[k])
    decreases |frames|
  {
    if frames == [] then []
    else
      assert ScannableFrame(frames[0]);
      assert forall k :: 1 <= k < |frames| ==> frames[1..][k - 1] == frames[k];
      [Message(Rtcm.MessageType(frames[0][3], frames[0][4]), frames[0])] + Messages(frames[1..])
  }

  /** A stream of frames is scanned into exactly its frames, in order, with or without valid CRCs. */
  lemma {:induction false} ScanFrames(frames: seq<seq<Byte>>)
    requires forall k :: 0 <= k < |frames| ==> ScannableFrame(frames[k])
    ensures Scan(Concat(frames), 0) == Messages(frames)
    decreases |frames|
  {
    if frames != [] {
      ScanFrameThen(frames[0], Concat(frames[1..]));
      assert forall k :: 1 <= k < |frames| ==> frames[1..][k - 1] == frames[k];
      ScanFrames(frames[1..]);
    }
  }

  /** A frame built by the RTCM encoder is found by the scanner, with the type at the head of its payload. */
  lemma ScanEncodedFrame(reserved: nat, payload: seq<Byte>)
    requires reserved < 64 && 2 <= |payload| < 1024
    ensures Scan(Rtcm.EncodeFrame(reserved, payload), 0)
      == [Message(Rtcm.MessageType(payload[0], payload[1]), Rtcm.EncodeFrame(reserved, payload))]
  {
    var f := Rtcm.EncodeFrame(reserved, payload);
    Rtcm.EncodedFrameIsValid(reserved, payload);
    assert f[3] == payload[0] && f[4] == payload[1];
    ScanFrameThen(f, []);
    assert f + [] == f;
  }

  // ---- _get_message_description ----

  /** The message types that have a label of their own. */
  const DescribedTypes: set<int> := {1005, 1006, 1074, 1075, 1077, 1084, 1085, 1087, 1094, 1095, 1097, 1124, 1125, 1127, 1230}

  function MessageDescription(msgType: int): string {
    match msgType
    case 1005 => "Station Coordinates"
    case 1006 => "Station Coordinates + Height"
    case 1074 => "GPS MSM4"
    case 1075 => "GPS MSM5"
    case 1077 => "GPS MSM7"
    case 1084 => "GLONASS MSM4"
    case 1085 => "GLONASS MSM5"
    case 1087 => "GLONASS MSM7"
    case 1094 => "Galileo MSM4"
    case 1095 => "Galileo MSM5"
    case 1097 => "Galileo MSM7"
    case 1124 => "BeiDou MSM4"
    case 1125 => "BeiDou MSM5"
    case 1127 => "BeiDou MSM7"
    case 1230 => "GLONASS Code-Phase Biases"
    case _ => "Unknown"
  }

  /** Exactly the fifteen listed types have a label; every other number is "Unknown". */
  lemma DescriptionKnownExactly(msgType: int)
    ensures MessageDescription(msgType) == "Unknown" <==> msgType !in DescribedTypes
  {
  }

  /** The MSM4 labels name the constellation whose MSM4 number it is. */
  lemma DescriptionMsm4(msgType: int)
    requires msgType in {1074, 1084, 1094, 1124}
    ensures Text.Contains(MessageDescription(msgType), "MSM4")
  {
    var d := MessageDescription(msgType);
    assert Text.OccursAt(d, "MSM4", |d| - 4);
  }

  // ---- the request of connect ----

  /** `if self.username and self.password`: both given and neither empty. */
  predicate HasCredentials(username: Option<string>, password: Option<string>) {
    username.Some? && password.Some? && username.value != [] && password.value != []
  }

  /** "GET /<mountpoint> HTTP/1.1": three words joined by single spaces. */
  function RequestLine(mountpoint: string): string {
    Text.JoinWith(["GET", "/" + mountpoint, "HTTP/1.1"], " ")
  }

  /** The lines of the request connect sends, each to be ended by CRLF. */
  function RequestLines(host: string, mountpoint: string, username: Option<string>, password: Option<string>): seq<string> {
    [RequestLine(mountpoint), "Host: " + host, "User-Agent: NTRIP PythonClient/1.0", "Ntrip-Version: Ntrip/2.0"]
    + (if HasCredentials(username, password)
       then ["Authorization: " + Ntrip.BasicHeader(username.value, password.value)] else [])
    + ["Connection: close", ""]
  }

  function RequestText(host: string, mountpoint: string, username: Option<string>, password: Option<string>): string {
    Text.JoinLines(RequestLines(host, mountpoint, username, password))
  }

  predicate IsAsciiText(s: string) {
    forall i :: 0 <= i < |s| ==> s[i] as int < 128
  }

  /**
   * The request connect sends; None where an encode('ascii') of the
   * credentials or of the request fails, which makes connect give up.
   */
  function ConnectRequest(host: string, mountpoint: string, username: Option<string>, password: Option<string>): (r: Option<string>)
    ensures r.Some? ==> IsAsciiText(r.value)
  {
    if HasCredentials(username, password) && !IsAsciiText(username.value + ":" + password.value) then None
    else if !IsAsciiText(RequestText(host, mountpoint, username, password)) then None
    else Some(RequestText(host, mountpoint, username, password))
  }

  /** The header line that comes before the request's end. */
  lemma RequestEnd(host: string, mountpoint: string, username: Option<string>, password: Option<string>)
    ensures var lines := RequestLines(host, mountpoint, username, password);
      |lines| >= 6 && lines[|lines| - 2] == "Connection: close" && lines[|lines| - 1] == ""
  {
  }

  /** The request text ends with "Connection: close" and the empty line that closes the header. */
  lemma RequestTextEnd(host: string, mountpoint: string, username: Option<string>, password: Option<string>)
    ensures var t := RequestText(host, mountpoint, username, password);
      |t| >= 21 && t[|t| - 21..] == "Connection: close\r\n\r\n"
  {
    var lines := RequestLines(host, mountpoint, username, password);
    var n := |lines|;
    RequestEnd(host, mountpoint, username, password);
    JoinLinesEnd(lines[..n - 2], "Connection: close");
    assert lines == lines[..n - 2] + ["Connection: close", ""];
  }

  lemma {:induction false} JoinLinesEnd(front: seq<string>, last: string)
    ensures Text.JoinLines(front + [last, ""]) == Text.JoinLines(front) + last + Text.CRLF + Text.CRLF
    decreases |front|
  {
    if front == [] {
      assert [last, ""][1..] == [""] && [""][1..] == [];
      assert Text.JoinLines([""]) == Text.CRLF;
      assert front + [last, ""] == [last, ""];
      assert Text.JoinLines([last, ""]) == last + Text.CRLF + Text.CRLF;
    } else {
      assert (front + [last, ""])[1..] == front[1..] + [last, ""];
      JoinLinesEnd(front[1..], last);
    }
  }

  /** A line that does not start with 'A' is not an Authorization header. */
  lemma AuthorizationSkip(line: string, rest: seq<string>)
    requires line == [] || line[0] != 'A'
    ensures Ntrip.AuthorizationOf([line] + rest) == Ntrip.AuthorizationOf(rest)
  {
    assert ([line] + rest)[1..] == rest;
    assert !Text.StartsWith(line, Ntrip.AuthorizationPrefix) by {
      if |line| >= 14 {
        assert line[..14][0] == line[0];
      }
    }
  }

  /** A Basic header has no whitespace, no CR and no colon after "Basic ". */
  lemma BasicHeaderShape(user: string, password: string)
    ensures var h := Ntrip.BasicHeader(user, password);
      && |h| > 6 && h[..6] == "Basic " && !Text.IsSpace(h[0]) && !Text.IsSpace(h[|h| - 1])
      && '\r' !in h
  {
    var e := Base64.Encode(Utf8.Encode(user + ":" + password));
    Base64.EncodeChars(Utf8.Encode(user + ":" + password));
    Base64.EncodeNonEmpty(Utf8.Encode(user + ":" + password));
    var h := "Basic " + e;
    assert h == Ntrip.BasicHeader(user, password);
    assert h[|h| - 1] == e[|e| - 1];
    assert Base64.IsEncodingChar(e[|e| - 1]);
    forall i | 0 <= i < |h| ensures h[i] != '\r' {
      if i >= 6 {
        assert h[i] == e[i - 6];
        assert Base64.IsEncodingChar(e[i - 6]);
      }
    }
  }

  /** How the request's lines fall apart around the optional Authorization line. */
  lemma RequestLinesShape(host: string, mountpoint: string, username: Option<string>, password: Option<string>)
    ensures var auth := if HasCredentials(username, password)
        then ["Authorization: " + Ntrip.BasicHeader(username.value, password.value)] else [];
      RequestLines(host, mountpoint, username, password) + [""]
      == [RequestLine(mountpoint)] + (["Host: " + host] + (["User-Agent: NTRIP PythonClient/1.0"]
        + (["Ntrip-Version: Ntrip/2.0"] + (auth + (["Connection: close"] + (["", ""]))))))
  {
  }

  /** The Authorization line connect adds is found by the caster, with the header it carries. */
  lemma AuthorizationLineFound(user: string, password: string, rest: seq<string>)
    ensures Ntrip.AuthorizationOf(["Authorization: " + Ntrip.BasicHeader(user, password)] + rest)
      == Some(Ntrip.BasicHeader(user, password))
  {
    var h := Ntrip.BasicHeader(user, password);
    var a := "Authorization: " + h;
    BasicHeaderShape(user, password);
    assert a[..14] == Ntrip.AuthorizationPrefix;
    assert a[14..] == " " + h;
    assert Text.StripLeft(" " + h) == h by {
      assert (" " + h)[1..] == h;
    }
    Text.StripNoSpace(h);
  }

  /**
   * The caster finds the request's Authorization header exactly when
   * connect was given both a username and a password.
   */
  lemma RequestAuthorization(host: string, mountpoint: string, username: Option<string>, password: Option<string>)
    ensures Ntrip.AuthorizationOf(RequestLines(host, mountpoint, username, password) + [""])
      == if HasCredentials(username, password)
         then Some(Ntrip.BasicHeader(username.value, password.value)) else None
  {
    RequestLinesShape(host, mountpoint, username, password);
    var l0, l1 := RequestLine(mountpoint), "Host: " + host;
    var l2, l3 := "User-Agent: NTRIP PythonClient/1.0", "Ntrip-Version: Ntrip/2.0";
    var auth := if HasCredentials(username, password)
      then ["Authorization: " + Ntrip.BasicHeader(username.value, password.value)] else [];
    var tail := ["Connection: close"] + ["", ""];
    assert l0[0] == 'G' && l1[0] == 'H' && l2[0] == 'U' && l3[0] == 'N';
    AuthorizationSkip(l0, [l1] + ([l2] + ([l3] + (auth + tail))));
    AuthorizationSkip(l1, [l2] + ([l3] + (auth + tail)));
    AuthorizationSkip(l2, [l3] + (auth + tail));
    AuthorizationSkip(l3, auth + tail);
    if HasCredentials(username, password) {
      AuthorizationLineFound(username.value, password.value, tail);
    } else {
      assert auth + tail == tail;
      AuthorizationSkip("Connection: close", ["", ""]);
      AuthorizationSkip("", [""]);
      AuthorizationSkip("", []);
      assert ["", ""] == [""] + [""] && [""] == [""] + [];
    }
  }

  lemma AgentWithoutCr()
    ensures '\r' !in "User-Agent: NTRIP PythonClient/1.0"
  {
  }

  lemma VersionWithoutCr()
    ensures '\r' !in "Ntrip-Version: Ntrip/2.0" && '\r' !in "Connection: close"
  {
  }

  /** No line of the request holds a CR when the host and the mountpoint hold none. */
  lemma RequestLinesWithoutCr(host: string, mountpoint: string, username: Option<string>, password: Option<string>)
    requires '\r' !in host && Text.NoSpace(mountpoint)
    ensures var lines := RequestLines(host, mountpoint, username, password);
      forall k :: 0 <= k < |lines| ==> '\r' !in lines[k]
  {
    RequestLineWithoutCr(mountpoint);
    AgentWithoutCr();
    VersionWithoutCr();
    assert '\r' !in "Host: " + host;
    if HasCredentials(username, password) {
      BasicHeaderShape(username.value, password.value);
      var a := "Authorization: " + Ntrip.BasicHeader(username.value, password.value);
      assert '\r' !in a;
    }
  }

  /** The request line's three words. */
  lemma RequestLineWords(mountpoint: string)
    requires Text.NoSpace(mountpoint)
    ensures Text.SplitWhitespace(RequestLine(mountpoint)) == ["GET", "/" + mountpoint, "HTTP/1.1"]
  {
    var m := "/" + mountpoint;
    assert Text.NoSpace(m) by {
      assert forall i :: 1 <= i < |m| ==> m[i] == mountpoint[i - 1];
    }
    assert Text.NoSpace("GET") && Text.NoSpace("HTTP/1.1");
    Text.SplitJoinWords(["GET", m, "HTTP/1.1"]);
  }

  lemma RequestLineWithoutCr(mountpoint: string)
    requires Text.NoSpace(mountpoint)
    ensures '\r' !in RequestLine(mountpoint)
  {
    var m := "/" + mountpoint;
    assert Text.IsSpace('\r');
    assert '\r' !in m by {
      assert forall i :: 1 <= i < |m| ==> m[i] == mountpoint[i - 1];
    }
    assert '\r' !in "GET" && '\r' !in "HTTP/1.1";
    Ntrip.JoinWithout(["GET", m, "HTTP/1.1"], " ", '\r');
  }

  /**
   * How the caster routes the request connect sends: on the words
   * GET, /mountpoint and HTTP/1.1, authorized exactly when credentials were
   * given and the caster accepts them.
   */
  lemma ClientRoute(host: string, mountpoint: string, username: Option<string>, password: Option<string>,
                    known: set<string>, requireAuth: bool, credentials: map<string, string>)
    requires '\r' !in host && Text.NoSpace(mountpoint)
    ensures Ntrip.Route(RequestText(host, mountpoint, username, password), known, requireAuth, credentials)
      == Ntrip.Decide(["GET", "/" + mountpoint, "HTTP/1.1"],
           HasCredentials(username, password)
           && Ntrip.VerifyAuth(Ntrip.BasicHeader(username.value, password.value), credentials),
           known, requireAuth)
  {
    var lines := RequestLines(host, mountpoint, username, password);
    RequestLinesWithoutCr(host, mountpoint, username, password);
    Text.SplitJoinLines(lines);
    var text := RequestText(host, mountpoint, username, password);
    assert text != [] by {
      assert text == lines[0] + Text.CRLF + Text.JoinLines(lines[1..]);
    }
    assert (lines + [""])[0] == lines[0];
    RequestLineWords(mountpoint);
    RequestAuthorization(host, mountpoint, username, password);
    if HasCredentials(username, password) {
      BasicHeaderShape(username.value, password.value);
    }
  }

  /** The decision on the words GET, /mountpoint and HTTP/1.1. */
  lemma DecideRequestLine(mountpoint: string, authorized: bool, known: set<string>, requireAuth: bool)
    ensures Ntrip.Decide(["GET", "/" + mountpoint, "HTTP/1.1"], authorized, known, requireAuth)
      == if mountpoint == [] then Ntrip.ListSources
         else if mountpoint !in known then Ntrip.NotFound
         else if requireAuth && !authorized then Ntrip.Unauthorized
         else Ntrip.Register(mountpoint)
  {
    assert ("/" + mountpoint)[..1] == "/" && ("/" + mountpoint)[1..] == mountpoint;
  }

  /** A known mountpoint with the right credentials (when asked for) registers the client. */
  lemma ClientIsRegistered(host: string, mountpoint: string, username: Option<string>, password: Option<string>,
                           known: set<string>, requireAuth: bool, credentials: map<string, string>)
    requires '\r' !in host && Text.NoSpace(mountpoint) && mountpoint != [] && mountpoint in known
    requires requireAuth ==> (HasCredentials(username, password) && ':' !in username.value
      && username.value in credentials && credentials[username.value] == password.value)
    ensures Ntrip.Route(RequestText(host, mountpoint, username, password), known, requireAuth, credentials)
      == Ntrip.Register(mountpoint)
  {
    ClientRoute(host, mountpoint, username, password, known, requireAuth, credentials);
    if requireAuth {
      Ntrip.VerifyAuthRoundTrip(username.value, password.value, credentials);
    }
    Ntrip.DecideRegisters(["GET", "/" + mountpoint, "HTTP/1.1"],
      HasCredentials(username, password)
      && Ntrip.VerifyAuth(Ntrip.BasicHeader(username.value, password.value), credentials),
      known, requireAuth, mountpoint);
  }

  /** Against a caster that requires authentication, a client without credentials gets the 401. */
  lemma ClientWithoutCredentialsIsRefused(host: string, mountpoint: string, username: Option<string>, password: Option<string>,
                                          known: set<string>, credentials: map<string, string>)
    requires '\r' !in host && Text.NoSpace(mountpoint) && mountpoint != [] && mountpoint in known
    requires !HasCredentials(username, password)
    ensures Ntrip.Route(RequestText(host, mountpoint, username, password), known, true, credentials)
      == Ntrip.Unauthorized
  {
    ClientRoute(host, mountpoint, username, password, known, true, credentials);
    DecideRequestLine(mountpoint, false, known, true);
  }

  /** An unknown mountpoint gets the 404, and an empty one the sourcetable. */
  lemma ClientMountpointNotServed(host: string, mountpoint: string, username: Option<string>, password: Option<string>,
                                  known: set<string>, requireAuth: bool, credentials: map<string, string>)
    requires '\r' !in host && Text.NoSpace(mountpoint)
    ensures mountpoint != [] && mountpoint !in known ==>
      Ntrip.Route(RequestText(host, mountpoint, username, password), known, requireAuth, credentials) == Ntrip.NotFound
    ensures mountpoint == [] ==>
      Ntrip.Route(RequestText(host, mountpoint, username, password), known, requireAuth, credentials) == Ntrip.ListSources
  {
    ClientRoute(host, mountpoint, username, password, known, requireAuth, credentials);
    DecideRequestLine(mountpoint, HasCredentials(username, password)
      && Ntrip.VerifyAuth(Ntrip.BasicHeader(username.value, password.value), credentials), known, requireAuth);
  }

  // ---- the answer connect accepts ----

  /** connect's test: "200 OK" (or "ICY 200 OK") occurs in the response. */
  predicate Connected(response: string) {
    Text.Contains(response, "200 OK") || Text.Contains(response, "ICY 200 OK")
  }

  lemma OccursContains(s: string, p: string, j: nat)
    requires Text.OccursAt(s, p, j)
    ensures Text.Contains(s, p)
  {
  }

  /** A text without one of p's characters does not contain p. */
  lemma MissingCharNotContained(s: string, p: string, c: char)
    requires c in p && c !in s
    ensures !Text.Contains(s, p)
  {
  }

  /** The caster's acceptance is read as connected. */
  lemma AcceptIsConnected()
    ensures Connected(Ntrip.ResponseText(200, "OK", "Content-Type: gnss/data\r\n"))
  {
    var r := Ntrip.ResponseText(200, "OK", "Content-Type: gnss/data\r\n");
    Text.DecimalRoundTrip(200);
    assert Text.IntToString(200) == "200";
    assert r[9..15] == "200 OK";
    OccursContains(r, "200 OK", 9);
  }

  /** A refusal whose message and extra headers hold no 'K' (all of the caster's do not) is read as failed. */
  lemma RefusalIsNotConnected(code: nat, message: string, extra: string)
    requires 'K' !in message && 'K' !in extra
    ensures !Connected(Ntrip.ResponseText(code, message, extra))
  {
    var d := Text.IntToString(code);
    assert Text.AllDigits(d);
    assert 'K' !in d by {
      forall i | 0 <= i < |d| ensures d[i] != 'K' {
        assert Text.IsDigit(d[i]);
      }
    }
    assert 'K' !in Ntrip.ServerLine;
    var r := Ntrip.ResponseText(code, message, extra);
    assert 'K' !in r;
    MissingCharNotContained(r, "200 OK", 'K');
    MissingCharNotContained(r, "ICY 200 OK", 'K');
  }

  /** The caster's three refusals are all read as failures. */
  lemma BadRequestIsNotConnected()
    ensures !Connected(Ntrip.ResponseText(400, "Bad Request", ""))
  {
    RefusalIsNotConnected(400, "Bad Request", "");
  }

  lemma NotFoundIsNotConnected()
    ensures !Connected(Ntrip.ResponseText(404, "Mountpoint not found", ""))
  {
    RefusalIsNotConnected(404, "Mountpoint not found", "");
  }

  lemma UnauthorizedIsNotConnected()
    ensures !Connected(Ntrip.ResponseText(401, "Unauthorized", "WWW-Authenticate: Basic realm=\"NTRIP\"\r\n"))
  {
    assert 'K' !in "WWW-Authenticate: Basic realm=\"NTRIP\"\r\n";
    RefusalIsNotConnected(401, "Unauthorized", "WWW-Authenticate: Basic realm=\"NTRIP\"\r\n");
  }

  /** A sourcetable also passes connect's test: its status line is "SOURCETABLE 200 OK". */
  lemma SourcetableIsConnected(host: string, port: nat, names: seq<string>, mountpoints: map<string, Ntrip.Mountpoint>)
    requires Ntrip.Registered(names, mountpoints)
    ensures Connected(Ntrip.Sourcetable(host, port, names, mountpoints))
  {
    var lines := Ntrip.SourcetableLines(host, port, names, mountpoints);
    Ntrip.SourcetableLayout(host, port, names, mountpoints);
    var t := Ntrip.Sourcetable(host, port, names, mountpoints);
    assert t == lines[0] + Text.CRLF + Text.JoinLines(lines[1..]);
    assert t[12..18] == lines[0][12..18];
    assert lines[0][12..18] == "200 OK";
    OccursContains(t, "200 OK", 12);
  }

  // ---- receive_loop ----

  /** A count read from the table, a missing entry counting as zero. */
  function CountOf(counts: map<nat, nat>, t: nat): nat {
    if t in counts then counts[t] else 0
  }

  /** `message_types[t] += 1`, creating the entry at zero first. */
  function Bump(counts: map<nat, nat>, t: nat): map<nat, nat> {
    counts[t := CountOf(counts, t) + 1]
  }

  /** The table after counting the messages ms, one after the other. */
  function CountTypes(counts: map<nat, nat>, ms: seq<Message>): map<nat, nat>
    decreases |ms|
  {
    if ms == [] then counts else Bump(CountTypes(counts, ms[..|ms| - 1]), ms[|ms| - 1].messageType)
  }

  /** How many of the messages have type t. */
  function Occurrences(ms: seq<Message>, t: nat): nat
    decreases |ms|
  {
    if ms == [] then 0 else Occurrences(ms[..|ms| - 1], t) + (if ms[|ms| - 1].messageType == t then 1 else 0)
  }

  /** The sum of all counts of a table. */
  ghost function Total(counts: map<nat, nat>): nat
    decreases counts.Keys
  {
    if counts == map[] then 0
    else
      assert exists t :: t in counts by {
        assert counts.Keys != {};
        var t :| t in counts.Keys;
      }
      var t :| t in counts;
      counts[t] + Total(counts - {t})
  }

  /** The sum does not depend on which entry is taken out first. */
  lemma {:induction false} TotalRemove(counts: map<nat, nat>, k: nat)
    requires k in counts
    ensures Total(counts) == counts[k] + Total(counts - {k})
    decreases counts.Keys
  {
    var t :| t in counts && Total(counts) == counts[t] + Total(counts - {t});
    if t != k {
      TotalRemove(counts - {t}, k);
      TotalRemove(counts - {k}, t);
      assert counts - {t} - {k} == counts - {k} - {t};
    }
  }

  /** One more message of any type adds one to the sum of the counts. */
  lemma TotalBump(counts: map<nat, nat>, t: nat)
    ensures Total(Bump(counts, t)) == Total(counts) + 1
  {
    var b := Bump(counts, t);
    TotalRemove(b, t);
    if t in counts {
      TotalRemove(counts, t);
      assert b - {t} == counts - {t};
    } else {
      assert b - {t} == counts;
    }
  }

  /** After counting ms, each type's count has grown by its number of occurrences in ms. */
  lemma {:induction false} CountTypesCounts(counts: map<nat, nat>, ms: seq<Message>, t: nat)
    ensures CountOf(CountTypes(counts, ms), t) == CountOf(counts, t) + Occurrences(ms, t)
    decreases |ms|
  {
    if ms != [] {
      CountTypesCounts(counts, ms[..|ms| - 1], t);
    }
  }

  /** After counting ms, the sum of the counts has grown by the number of messages. */
  lemma {:induction false} CountTypesTotal(counts: map<nat, nat>, ms: seq<Message>)
    ensures Total(CountTypes(counts, ms)) == Total(counts) + |ms|
    decreases |ms|
  {
    if ms != [] {
      CountTypesTotal(counts, ms[..|ms| - 1]);
      TotalBump(CountTypes(counts, ms[..|ms| - 1]), ms[|ms| - 1].messageType);
    }
  }

  /** `idx = buffer.find(msg_data)`, then `del buffer[:idx + len(msg_data)]` when it is found. */
  function DeleteThrough(buffer: seq<Byte>, d: seq<Byte>): seq<Byte> {
    match Text.Find(buffer, d)
    case None => buffer
    case Some(i) => buffer[i + |d|..]
  }

  /** receive_loop's deletion: find the message's bytes and drop the buffer up to their end. */
  method CutThrough(buffer: seq<Byte>, d: seq<Byte>) returns (rest: seq<Byte>)
    ensures rest == DeleteThrough(buffer, d)
  {
    rest := buffer;
    var idx := Text.Find(buffer, d);
    if idx.Some? {
      rest := buffer[idx.value + |d|..];
    }
  }

  /** The buffer after the deletions for the messages ms, one after the other. */
  function Consume(buffer: seq<Byte>, ms: seq<Message>): seq<Byte>
    decreases |ms|
  {
    if ms == [] then buffer else DeleteThrough(Consume(buffer, ms[..|ms| - 1]), ms[|ms| - 1].data)
  }

  /** Counting and consuming one more message of ms. */
  lemma CountStep(buffer: seq<Byte>, counts: map<nat, nat>, ms: seq<Message>, k: nat)
    requires k < |ms|
    ensures CountTypes(counts, ms[..k + 1]) == Bump(CountTypes(counts, ms[..k]), ms[k].messageType)
    ensures Consume(buffer, ms[..k + 1]) == DeleteThrough(Consume(buffer, ms[..k]), ms[k].data)
  {
    assert ms[..k + 1][..k] == ms[..k];
  }

  /** The deletions only ever cut a prefix off the buffer. */
  lemma {:induction false} ConsumeSuffix(buffer: seq<Byte>, ms: seq<Message>)
    ensures var r := Consume(buffer, ms); |r| <= |buffer| && r == buffer[|buffer| - |r|..]
    decreases |ms|
  {
    if ms != [] {
      ConsumeSuffix(buffer, ms[..|ms| - 1]);
      var b := Consume(buffer, ms[..|ms| - 1]);
      var r := Consume(buffer, ms);
      var f := Text.Find(b, ms[|ms| - 1].data);
      if f.Some? {
        assert r == b[f.value + |ms[|ms| - 1].data|..];
        assert buffer[|buffer| - |r|..] == b[|b| - |r|..];
      }
    }
  }

  /** A message at the very front of the buffer is removed exactly. */
  lemma DeleteFront(f: seq<Byte>, rest: seq<Byte>)
    ensures DeleteThrough(f + rest, f) == rest
  {
    assert (f + rest)[..|f|] == f;
    assert Text.OccursAt(f + rest, f, 0);
    assert (f + rest)[|f|..] == rest;
  }

  /** The sum of the lengths of the chunks. */
  function TotalLength(chunks: seq<seq<Byte>>): nat
    decreases |chunks|
  {
    if chunks == [] then 0 else TotalLength(chunks[..|chunks| - 1]) + |chunks[|chunks| - 1]|
  }

  /** What receive_loop carries from one recv result to the next: the two counters and the buffer. */
  datatype Progress = Progress(messages: nat, types: map<nat, nat>, buffer: seq<Byte>)

  /**
   * Each chunk in turn is appended to the buffer, the buffer is scanned, and
   * every message found is counted and cut out of it.
   */
  function Feed(p: Progress, chunks: seq<seq<Byte>>): (r: Progress)
    ensures r.messages >= p.messages
    decreases |chunks|
  {
    if chunks == [] then p
    else
      var q := Feed(p, chunks[..|chunks| - 1]);
      var data := q.buffer + chunks[|chunks| - 1];
      var ms := Scan(data, 0);
      Progress(q.messages + |ms|, CountTypes(q.types, ms), Consume(data, ms))
  }

  lemma FeedStep(p: Progress, chunks: seq<seq<Byte>>, n: nat)
    requires n < |chunks|
    ensures var q := Feed(p, chunks[..n]);
      var ms := Scan(q.buffer + chunks[n], 0);
      Feed(p, chunks[..n + 1]) == Progress(q.messages + |ms|, CountTypes(q.types, ms), Consume(q.buffer + chunks[n], ms))
  {
    assert chunks[..n + 1][..n] == chunks[..n];
  }

  /** Feeding keeps the message count equal to the sum of the per-type counts. */
  lemma {:induction false} FeedKeepsTotal(p: Progress, chunks: seq<seq<Byte>>)
    requires p.messages == Total(p.types)
    ensures Feed(p, chunks).messages == Total(Feed(p, chunks).types)
    decreases |chunks|
  {
    if chunks != [] {
      var q := Feed(p, chunks[..|chunks| - 1]);
      FeedKeepsTotal(p, chunks[..|chunks| - 1]);
      CountTypesTotal(q.types, Scan(q.buffer + chunks[|chunks| - 1], 0));
    }
  }

  /** `if max_messages and messages_received >= max_messages`: None and 0 set no limit, a negative one is met at once. */
  predicate LimitReached(maxMessages: Option<int>, count: nat) {
    maxMessages.Some? && maxMessages.value != 0 && count >= maxMessages.value
  }

  lemma TotalLengthStep(chunks: seq<seq<Byte>>, n: nat)
    requires n < |chunks|
    ensures TotalLength(chunks[..n + 1]) == TotalLength(chunks[..n]) + |chunks[n]|
  {
    assert chunks[..n + 1][..n] == chunks[..n];
  }

  /** NTRIPClient of the test tool: its connection flag and its receive counters. */
  class Client {
    const host: string
    const port: nat
    const mountpoint: string
    const username: Option<string>
    const password: Option<string>
    var connected: bool
    var bytesReceived: nat
    var messagesReceived: nat
    var messageTypes: map<nat, nat>

    /** messages_received is always the sum of the message_types counts. */
    ghost predicate Valid()
      reads this
    {
      messagesReceived == Total(messageTypes)
    }

    constructor (host: string, port: nat, mountpoint: string, username: Option<string>, password: Option<string>)
      ensures Valid() && this.host == host && this.port == port && this.mountpoint == mountpoint
      ensures this.username == username && this.password == password
      ensures !connected && bytesReceived == 0 && messagesReceived == 0 && messageTypes == map[]
    {
      this.host, this.port, this.mountpoint := host, port, mountpoint;
      this.username, this.password := username, password;
      connected, bytesReceived, messagesReceived, messageTypes := false, 0, 0, map[];
    }

    /**
     * connect: the request is built and sent (nothing is sent when it
     * cannot be encoded as ASCII); response is what the caster answers.
     */
    method Connect(response: string) returns (ok: bool, request: Option<string>)
      requires Valid()
      modifies this
      ensures Valid()
      ensures request == ConnectRequest(host, mountpoint, username, password)
      ensures ok == (request.Some? && Connected(response))
      ensures connected == (ok || old(connected))
      ensures bytesReceived == old(bytesReceived) && messagesReceived == old(messagesReceived)
      ensures messageTypes == old(messageTypes)
    {
      request := ConnectRequest(host, mountpoint, username, password);
      ok := request.Some? && Connected(response);
      if ok {
        connected := true;
      }
    }

    method Disconnect()
      requires Valid()
      modifies this
      ensures Valid() && !connected
      ensures bytesReceived == old(bytesReceived) && messagesReceived == old(messagesReceived)
      ensures messageTypes == old(messageTypes)
    {
      connected := false;
    }

    /**
     * One pass of receive_loop with data received: the bytes are counted
     * and appended, the buffer is scanned, and each message found is
     * counted and cut out of the buffer.
     */
    method ReceiveChunk(buffer: seq<Byte>, data: seq<Byte>) returns (rest: seq<Byte>)
      requires Valid()
      modifies this
      ensures Valid()
      ensures var ms := Scan(buffer + data, 0);
        && bytesReceived == old(bytesReceived) + |data|
        && messagesReceived == old(messagesReceived) + |ms|
        && messageTypes == CountTypes(old(messageTypes), ms)
        && rest == Consume(buffer + data, ms)
      ensures connected == old(connected)
    {
      bytesReceived := bytesReceived + |data|;
      var buf := buffer + data;
      var messages := ParseRtcm3(buf);
      var k := 0;
      while k < |messages|
        invariant 0 <= k <= |messages|
        invariant messagesReceived == old(messagesReceived) + k
        invariant messageTypes == CountTypes(old(messageTypes), messages[..k])
        invariant buf == Consume(buffer + data, messages[..k])
        invariant messagesReceived == Total(messageTypes)
        invariant bytesReceived == old(bytesReceived) + |data| && connected == old(connected)
      {
        var m := messages[k];
        CountStep(buffer + data, old(messageTypes), messages, k);
        TotalBump(messageTypes, m.messageType);
        messagesReceived := messagesReceived + 1;
        messageTypes := Bump(messageTypes, m.messageType);
        buf := CutThrough(buf, m.data);
        k := k + 1;
      }
      assert messages[..k] == messages;
      rest := buf;
    }

    /** ReceiveChunk on the next chunk takes the counters one step further along Feed. */
    method FeedChunk(ghost start: Progress, chunks: seq<seq<Byte>>, n: nat, buffer: seq<Byte>) returns (rest: seq<Byte>)
      requires Valid() && n < |chunks|
      requires var r := Feed(start, chunks[..n]);
        messagesReceived == r.messages && messageTypes == r.types && buffer == r.buffer
      modifies this
      ensures Valid() && connected == old(connected)
      ensures var r := Feed(start, chunks[..n + 1]);
        messagesReceived == r.messages && messageTypes == r.types && rest == r.buffer
      ensures bytesReceived == old(bytesReceived) + |chunks[n]|
    {
      FeedStep(start, chunks, n);
      rest := ReceiveChunk(buffer, chunks[n]);
    }

    /**
     * receive_loop over the successive results of recv: before each recv it
     * stops once the message limit is reached, and it stops at an empty
     * result (the caster closed the connection). The counters end as
     * feeding the chunks taken says; the number of chunks taken is returned.
     */
    method ReceiveLoop(chunks: seq<seq<Byte>>, maxMessages: Option<int>) returns (received: nat)
      requires Valid()
      modifies this
      ensures Valid() && received <= |chunks| && connected == old(connected)
      ensures !old(connected) ==> received == 0
      ensures var r := Feed(Progress(old(messagesReceived), old(messageTypes), []), chunks[..received]);
        messagesReceived == r.messages && messageTypes == r.types
      ensures bytesReceived == old(bytesReceived) + TotalLength(chunks[..received])
      ensures forall k :: 0 <= k < received ==>
        && chunks[k] != []
        && !LimitReached(maxMessages, Feed(Progress(old(messagesReceived), old(messageTypes), []), chunks[..k]).messages)
      ensures old(connected) && received < |chunks| ==>
        chunks[received] == [] || LimitReached(maxMessages, messagesReceived)
    {
      received := 0;
      if !connected {
        return;
      }
      ghost var start := Progress(messagesReceived, messageTypes, []);
      var buffer: seq<Byte> := [];
      while received < |chunks|
        invariant Valid() && received <= |chunks| && connected == old(connected)
        invariant var r := Feed(start, chunks[..received]);
          messagesReceived == r.messages && messageTypes == r.types && buffer == r.buffer
        invariant bytesReceived == old(bytesReceived) + TotalLength(chunks[..received])
        invariant forall k :: 0 <= k < received ==>
          chunks[k] != [] && !LimitReached(maxMessages, Feed(start, chunks[..k]).messages)
      {
        if LimitReached(maxMessages, messagesReceived) {
          break;
        }
        var data := chunks[received];
        if data == [] {
          break;
        }
        assert !LimitReached(maxMessages, Feed(start, chunks[..received]).messages);
        buffer := FeedChunk(start, chunks, received, buffer);
        TotalLengthStep(chunks, received);
        received := received + 1;
      }
    }
  }
}
