/**
 * The LC29H receiver link: the NMEA command strings written to the receiver,
 * the byte-by-byte splitter that separates RTCM 3 frames from NMEA 0183
 * sentences in the serial stream, and the GGA telemetry kept from the
 * sentences.
 */
module GpsSerial {
  import opened Wrappers
  import opened Bytes
  import Text
  import Rtcm

  // ---- _calc_checksum and the command strings ----

  /** The XOR of the character codes of s, taken left to right. */
  function CodesXor(s: string): nat {
    if s == [] then 0 else Xor(CodesXor(s[..|s| - 1]), s[|s| - 1] as int)
  }

  /** f"{checksum:02X}" of the XOR of the characters. */
  function Checksum(sentence: string): string {
    Text.Hex02(CodesXor(sentence))
  }

  /** _calc_checksum: the XOR accumulated over the sentence, one character at a time. */
  method CalcChecksum(sentence: string) returns (cs: string)
    ensures cs == Checksum(sentence)
  {
    var checksum: nat := 0;
    for i := 0 to |sentence|
      invariant checksum == CodesXor(sentence[..i])
    {
      assert sentence[..i + 1][..i] == sentence[..i];
      checksum := Xor(checksum, sentence[i] as int);
    }
    assert sentence[..|sentence|] == sentence;
    cs := Text.Hex02(checksum);
  }

  /** Every character is 7-bit ASCII. */
  predicate IsAscii(s: string) {
    forall i :: 0 <= i < |s| ==> (s[i] as int) < 128
  }

  /** The XOR of ASCII codes is itself below 128. */
  lemma {:induction false} CodesXorAscii(s: string)
    requires IsAscii(s)
    ensures CodesXor(s) < 128
  {
    if s != [] {
      assert IsAscii(s[..|s| - 1]) by {
        assert forall i :: 0 <= i < |s| - 1 ==> s[..|s| - 1][i] == s[i];
      }
      CodesXorAscii(s[..|s| - 1]);
      assert Pow2(7) == 128 by {
        assert Pow2(2) == 4;
        assert Pow2(4) == 16;
      }
      XorBound(CodesXor(s[..|s| - 1]), s[|s| - 1] as int, 7);
    }
  }

  /**
   * The checksum of an ASCII sentence is exactly two uppercase hexadecimal
   * digits, and they read back as the XOR of its characters.
   */
  lemma ChecksumAscii(s: string)
    requires IsAscii(s)
    ensures |Checksum(s)| == 2 && Text.AllUpperHex(Checksum(s))
    ensures Text.HexValue(Checksum(s)) == CodesXor(s)
  {
    CodesXorAscii(s);
    Text.Hex02Facts(CodesXor(s));
  }

  /** f"${body}*{checksum(body)}\r\n": an NMEA-style command for the receiver. */
  function Command(body: string): string {
    "$" + body + "*" + Checksum(body) + Text.CRLF
  }

  /**
   * A command for an ASCII body can be taken apart again: '$', the body, '*',
   * two hex digits that read back as the body's checksum, and CR LF.
   */
  lemma CommandFields(body: string)
    requires IsAscii(body)
    ensures var c := Command(body);
      && |c| == |body| + 6
      && c[0] == '$' && c[1..|body| + 1] == body && c[|body| + 1] == '*'
      && c[|body| + 2..|body| + 4] == Checksum(body)
      && c[|body| + 4..] == Text.CRLF
  {
    ChecksumAscii(body);
    var c := Command(body);
    assert c == ((("$" + body) + "*") + Checksum(body)) + Text.CRLF;
  }

  /** The text _send_command is given: the checksum computed separately, then spliced in. */
  lemma CommandText(body: string, cs: string)
    requires cs == Checksum(body)
    ensures "$" + body + "*" + cs + "\r\n" == Command(body)
  {
  }

  /** The PAIR065 command of configure_base_mode: switch the receiver to base-station mode. */
  const BaseModeBody: string := "PAIR065,0,1"

  function BaseModeCommand(): (c: string)
    ensures c == "$" + BaseModeBody + "*" + Checksum(BaseModeBody) + "\r\n"
  {
    Command(BaseModeBody)
  }

  /** The PAIR062 body that fixes the base position. */
  function PositionBody(lat: string, lon: string, alt: string): string {
    "PAIR062," + lat + "," + lon + "," + alt
  }

  /** The message types enable_rtcm_output selects when given None. */
  const DefaultRtcmMessages: seq<int> := [1005, 1074, 1084, 1094, 1124, 1230]

  /** f"PAIR050,{msg_type},1": enable output of one RTCM message type. */
  function RtcmOutputBody(msgType: int): string {
    "PAIR050," + Text.IntToString(msgType) + ",1"
  }

  /** The loop body of enable_rtcm_output: the command text for one message type. */
  method RtcmOutputCommand(msgType: int) returns (cmd: string)
    ensures cmd == PairCommand(msgType)
  {
    var cmdStr := "PAIR050," + Text.IntToString(msgType) + ",1";
    var cs := CalcChecksum(cmdStr);
    CommandText(cmdStr, cs);
    cmd := "$" + cmdStr + "*" + cs + "\r\n";
  }

  /** The commands enable_rtcm_output writes for a list of types, in list order. */
  function RtcmOutputCommands(types: seq<int>): seq<string> {
    MapSeq(PairCommand, types)
  }

  /** The PAIR050 command for one message type. */
  function PairCommand(msgType: int): string {
    Command(RtcmOutputBody(msgType))
  }

  /** One PAIR050 command per type, the k-th for the k-th type. */
  lemma RtcmOutputCommandsEach(types: seq<int>)
    ensures |RtcmOutputCommands(types)| == |types|
    ensures forall k :: 0 <= k < |types| ==> RtcmOutputCommands(types)[k] == Command(RtcmOutputBody(types[k]))
  {
    MapSeqLength(PairCommand, types);
    forall k | 0 <= k < |types|
      ensures RtcmOutputCommands(types)[k] == Command(RtcmOutputBody(types[k]))
    {
      MapSeqAt(PairCommand, types, k);
    }
  }

  /** A log that grows by one entry when the port is open, and not at all when it is closed. */
  lemma LogSnoc<T>(log: seq<T>, xs: seq<T>, x: T, open: bool)
    ensures (log + (if open then xs else [])) + (if open then [x] else []) == log + (if open then xs + [x] else [])
  {
    if open {
      assert (log + xs) + [x] == log + (xs + [x]);
    } else {
      assert log + [] + [] == log + [];
    }
  }

  // ---- the GGA telemetry ----

  /**
   * The gps_status dict. The HDOP is kept as the text float() accepted
   * ("0.0" for the initial and empty values); lastUpdate is in milliseconds.
   */
  datatype GpsStatus = GpsStatus(
    satellites: int, fixQuality: int, fixType: string, hdop: string, lastUpdate: Option<int>)

  const InitialStatus: GpsStatus := GpsStatus(0, 0, "No Fix", "0.0", None)

  /** The fix_types table, and "Unknown (<code>)" for a code it does not hold. */
  function FixTypeName(fix: string): string {
    if fix == "0" then "No Fix"
    else if fix == "1" then "GPS Fix"
    else if fix == "2" then "DGPS Fix"
    else if fix == "4" then "RTK Fixed"
    else if fix == "5" then "RTK Float"
    else if fix == "6" then "Dead Reckoning"
    else "Unknown (" + fix + ")"
  }

  /** The codes the table knows. */
  predicate KnownFix(fix: string) {
    fix in {"0", "1", "2", "4", "5", "6"}
  }

  /** A known code gets its table name; any other code is reported as unknown, with the code itself. */
  lemma FixTypeTable(fix: string)
    ensures KnownFix(fix) <==> !Text.StartsWith(FixTypeName(fix), "Unknown (")
    ensures !KnownFix(fix) ==> FixTypeName(fix) == "Unknown (" + fix + ")"
  {
    var u := "Unknown (";
    if !KnownFix(fix) {
      var n := FixTypeName(fix);
      assert n[..|u|] == u;
    } else {
      assert FixTypeName(fix)[0] != 'U';
    }
  }

  /** `int(x) if x else 0`: None when int() raises ValueError. */
  function IntOrZero(x: string): Option<int> {
    if x == [] then Some(0) else Text.ParseInt(x)
  }

  /** `float(x) if x else 0.0`, on text: None when float() raises ValueError. */
  function FloatOrZero(x: string): Option<string> {
    if x == [] then Some("0.0") else if Text.IsFloatText(x) then Some(x) else None
  }

  /** A sentence _process_nmea reads fields from: it mentions GGA and has more than nine comma fields. */
  predicate IsGga(sentence: string) {
    Text.StartsWith(sentence, "$") && Text.Contains(sentence, "GGA") && |Text.SplitOn(sentence, ",")| > 9
  }

  /** Fields 6, 7 and 8 of a GGA sentence: fix quality, satellites in use, HDOP. */
  function GgaFields(sentence: string): (string, string, string)
    requires IsGga(sentence)
  {
    var parts := Text.SplitOn(sentence, ",");
    (parts[6], parts[7], parts[8])
  }

  /**
   * The three field writes of _process_nmea, in the order they are made,
   * given the outcomes of int(fix), the table lookup, int(sats) and
   * float(hdop): a failed parse leaves that field and every later one (and
   * last_update) as they were.
   */
  function ApplyGga(st: GpsStatus, q: Option<int>, fixName: string, n: Option<int>, h: Option<string>, now: int): GpsStatus {
    match q
    case None => st
    case Some(quality) =>
      var st1 := st.(fixQuality := quality, fixType := fixName);
      match n
      case None => st1
      case Some(sats) =>
        var st2 := st1.(satellites := sats);
        match h
        case None => st2
        case Some(hdop) => st2.(hdop := hdop, lastUpdate := Some(now))
  }

  /** The status after one sentence: only a GGA sentence changes it. */
  function GgaUpdate(st: GpsStatus, sentence: string, now: int): (r: GpsStatus)
    ensures !IsGga(sentence) ==> r == st
  {
    if !IsGga(sentence) then st
    else
      var (fix, sats, hdop) := GgaFields(sentence);
      ApplyGga(st, IntOrZero(fix), FixTypeName(fix), IntOrZero(sats), FloatOrZero(hdop), now)
  }

  /** last_update is refreshed, to now, exactly when all three fields parsed; nothing else moves it. */
  lemma GgaRefreshesOnlyOnFullParse(st: GpsStatus, q: Option<int>, fixName: string, n: Option<int>, h: Option<string>, now: int)
    requires st.lastUpdate != Some(now)
    ensures ApplyGga(st, q, fixName, n, h, now).lastUpdate != st.lastUpdate <==> q.Some? && n.Some? && h.Some?
    ensures ApplyGga(st, q, fixName, n, h, now).lastUpdate in {st.lastUpdate, Some(now)}
  {
  }

  /**
   * The writes are ordered: a fix code that parses sets fix quality and fix
   * type even when a later field fails, and one that does not parse leaves
   * the whole status as it was; the satellite count is written whenever it
   * and the fix code parse, whatever the HDOP.
   */
  lemma GgaWriteOrder(st: GpsStatus, q: Option<int>, fixName: string, n: Option<int>, h: Option<string>, now: int)
    ensures q.Some? ==>
      && ApplyGga(st, q, fixName, n, h, now).fixQuality == q.value
      && ApplyGga(st, q, fixName, n, h, now).fixType == fixName
    ensures q.None? ==> ApplyGga(st, q, fixName, n, h, now) == st
    ensures q.Some? && n.Some? ==> ApplyGga(st, q, fixName, n, h, now).satellites == n.value
    ensures q.Some? && n.Some? && h.None? ==> ApplyGga(st, q, fixName, n, h, now).hdop == st.hdop
  {
  }

  /**
   * get_gps_status: a copy of the status, stale when there has been no update
   * (None, or the falsy time 0) or the last one is more than 5 s old.
   */
  datatype StatusReport = StatusReport(status: GpsStatus, stale: bool)

  function StatusAt(st: GpsStatus, now: int): (r: StatusReport)
    ensures r.status == st
    ensures r.stale <==> (st.lastUpdate.None? || st.lastUpdate.value == 0 || now - st.lastUpdate.value > 5000)
  {
    match st.lastUpdate
    case None => StatusReport(st, true)
    case Some(t) => StatusReport(st, if t != 0 then now - t > 5000 else true)
  }

  /** Staleness only grows with time: stale now means stale at every later time. */
  lemma StaleStaysStale(st: GpsStatus, now: int, later: int)
    requires now <= later && StatusAt(st, now).stale
    ensures StatusAt(st, later).stale
  {
  }

  /** A full GGA update at a non-zero time makes the status fresh for the next five seconds. */
  lemma FreshAfterUpdate(st: GpsStatus, sentence: string, now: int, later: int)
    requires now != 0 && now <= later <= now + 5000
    requires GgaUpdate(st, sentence, now).lastUpdate == Some(now)
    ensures !StatusAt(GgaUpdate(st, sentence, now), later).stale
  {
  }

  // ---- the splitter of _read_loop ----

  const Dollar: Byte := 0x24
  const Newline: Byte := 0x0A

  /** The two buffers _read_loop keeps across reads. */
  datatype Splitter = Splitter(rtcm: seq<Byte>, nmea: seq<Byte>)

  /** What one byte hands on: a byte string for _process_rtcm, or a completed NMEA line. */
  datatype Piece = RtcmPiece(data: seq<Byte>) | NmeaLine(line: seq<Byte>)

  /** A started RTCM buffer that has not reached its declared length plus six yet. */
  predicate Incomplete(buf: seq<Byte>) {
    |buf| < 3 || |buf| < Rtcm.DeclaredLength(buf[1], buf[2]) + 6
  }

  /**
   * One iteration of `for byte in data`: 0xD3 restarts the RTCM buffer
   * (handing on what it held), other bytes extend a started RTCM buffer
   * until its declared length is reached, and everything else goes to NMEA
   * assembly, which starts at '$' and ends at LF.
   */
  function Step(s: Splitter, b: Byte): (Splitter, seq<Piece>) {
    if b == Preamble then
      (Splitter([b], s.nmea), if s.rtcm != [] then [RtcmPiece(s.rtcm)] else [])
    else if s.rtcm != [] then
      var buf := s.rtcm + [b];
      if |buf| >= 3 && |buf| >= Rtcm.DeclaredLength(buf[1], buf[2]) + 6 then
        (Splitter([], s.nmea), [RtcmPiece(buf[..Rtcm.DeclaredLength(buf[1], buf[2]) + 6])])
      else (Splitter(buf, s.nmea), [])
    else if b == Dollar then (Splitter(s.rtcm, [b]), [])
    else if s.nmea != [] then
      var line := s.nmea + [b];
      if b == Newline then (Splitter(s.rtcm, []), [NmeaLine(line)]) else (Splitter(s.rtcm, line), [])
    else (s, [])
  }

  /** A byte extending a started RTCM buffer that is still short of its declared end. */
  lemma StepGrows(s: Splitter, b: Byte, buf: seq<Byte>)
    requires b != Preamble && s.rtcm != [] && buf == s.rtcm + [b]
    requires Incomplete(buf)
    ensures Step(s, b) == (Splitter(buf, s.nmea), [])
  {
  }

  /** The byte that brings a started RTCM buffer to its declared end hands the frame on. */
  lemma StepCompletes(s: Splitter, b: Byte, buf: seq<Byte>)
    requires b != Preamble && s.rtcm != [] && buf == s.rtcm + [b]
    requires |buf| >= 3 && |buf| == Rtcm.DeclaredLength(buf[1], buf[2]) + 6
    ensures Step(s, b) == (Splitter([], s.nmea), [RtcmPiece(buf)])
  {
    assert buf[..|buf|] == buf;
  }

  /** A byte of a sentence in progress, other than LF, is buffered. */
  lemma StepLine(s: Splitter, b: Byte)
    requires s.rtcm == [] && s.nmea != [] && b != Preamble && b != Dollar && b != Newline
    ensures Step(s, b) == (Splitter([], s.nmea + [b]), [])
  {
  }

  /** The buffers and the pieces handed on after a run of bytes. */
  function Split(s: Splitter, data: seq<Byte>): (Splitter, seq<Piece>) {
    if data == [] then (s, [])
    else
      var prev := Split(s, data[..|data| - 1]);
      var next := Step(prev.0, data[|data| - 1]);
      (next.0, prev.1 + next.1)
  }

  lemma SplitSnoc(s: Splitter, data: seq<Byte>, b: Byte)
    ensures Split(s, data + [b]) ==
      (Step(Split(s, data).0, b).0, Split(s, data).1 + Step(Split(s, data).0, b).1)
  {
    assert (data + [b])[..|data|] == data;
  }

  /** A byte that hands nothing on after a run that handed nothing on. */
  lemma SplitSnocQuiet(s: Splitter, data: seq<Byte>, b: Byte, t: Splitter)
    requires Split(s, data).1 == [] && Step(Split(s, data).0, b) == (t, [])
    ensures Split(s, data + [b]) == (t, [])
  {
    SplitSnoc(s, data, b);
    var none: seq<Piece> := [];
    assert none + none == none;
  }

  /** A byte that hands one piece on after a run that handed nothing on. */
  lemma SplitSnocOne(s: Splitter, data: seq<Byte>, b: Byte, t: Splitter, p: Piece)
    requires Split(s, data).1 == [] && Step(Split(s, data).0, b) == (t, [p])
    ensures Split(s, data + [b]) == (t, [p])
  {
    SplitSnoc(s, data, b);
    var none: seq<Piece> := [];
    assert none + [p] == [p];
  }

  /**
   * Between bytes an RTCM buffer is empty or a started, still incomplete
   * frame, and an NMEA buffer is empty or a '$' line without its LF.
   */
  predicate Buffered(s: Splitter) {
    && (s.rtcm != [] ==> s.rtcm[0] == Preamble && Incomplete(s.rtcm))
    && (s.nmea != [] ==> s.nmea[0] == Dollar && Newline !in s.nmea)
  }

  /**
   * What the splitter hands on: an RTCM piece starts with 0xD3 and is a
   * complete frame or a frame cut short by the next 0xD3; an NMEA line runs
   * from '$' to its first LF.
   */
  predicate WellFormed(p: Piece) {
    match p
    case RtcmPiece(d) =>
      d != [] && d[0] == Preamble && (Rtcm.IsFramed(d) || Incomplete(d))
    case NmeaLine(l) =>
      |l| >= 2 && l[0] == Dollar && l[|l| - 1] == Newline && Newline !in l[..|l| - 1]
  }

  predicate AllWellFormed(ps: seq<Piece>) {
    forall k :: 0 <= k < |ps| ==> WellFormed(ps[k])
  }

  /** Each byte keeps the buffers in shape and hands on only well-formed pieces. */
  lemma StepKeepsShape(s: Splitter, b: Byte)
    requires Buffered(s)
    ensures Buffered(Step(s, b).0) && AllWellFormed(Step(s, b).1)
  {
    if b != Preamble && s.rtcm != [] {
      var buf := s.rtcm + [b];
      if |buf| >= 3 {
        assert buf[1] == s.rtcm[1] || |s.rtcm| < 2;
        var total := Rtcm.DeclaredLength(buf[1], buf[2]) + 6;
        if |buf| >= total {
          var d := buf[..total];
          assert d[0] == Preamble && d[1] == buf[1] && d[2] == buf[2];
        }
      }
    } else if b != Preamble && b != Dollar && s.nmea != [] {
      var line := s.nmea + [b];
      assert line[..|line| - 1] == s.nmea;
    }
  }

  lemma AllWellFormedAppend(ps: seq<Piece>, qs: seq<Piece>)
    requires AllWellFormed(ps) && AllWellFormed(qs)
    ensures AllWellFormed(ps + qs)
  {
    assert forall k :: |ps| <= k < |ps| + |qs| ==> (ps + qs)[k] == qs[k - |ps|];
  }

  /** Over any run of bytes the buffers stay in shape and every piece handed on is well-formed. */
  lemma {:induction false} SplitKeepsShape(s: Splitter, data: seq<Byte>)
    requires Buffered(s)
    ensures Buffered(Split(s, data).0) && AllWellFormed(Split(s, data).1)
  {
    if data != [] {
      var prev := Split(s, data[..|data| - 1]);
      SplitKeepsShape(s, data[..|data| - 1]);
      StepKeepsShape(prev.0, data[|data| - 1]);
      AllWellFormedAppend(prev.1, Step(prev.0, data[|data| - 1]).1);
    }
  }

  /**
   * The buffers survive from one read to the next, so how the stream is cut
   * into reads does not matter: two reads hand on what one read of both would.
   */
  lemma {:induction false} SplitChunked(s: Splitter, a: seq<Byte>, b: seq<Byte>)
    ensures Split(s, a + b).0 == Split(Split(s, a).0, b).0
    ensures Split(s, a + b).1 == Split(s, a).1 + Split(Split(s, a).0, b).1
    decreases |b|
  {
    if b == [] {
      assert a + b == a;
    } else {
      var b0, last := b[..|b| - 1], b[|b| - 1];
      assert a + b == (a + b0) + [last];
      assert b == b0 + [last];
      SplitChunked(s, a, b0);
      SplitSnoc(s, a + b0, last);
      SplitSnoc(Split(s, a).0, b0, last);
      var mid := Split(Split(s, a).0, b0);
      var x, y, z := Split(s, a).1, mid.1, Step(mid.0, last).1;
      assert (x + y) + z == x + (y + z);
    }
  }

  /** No 0xD3 after the first byte. */
  predicate NoInnerPreamble(f: seq<Byte>) {
    forall j :: 1 <= j < |f| ==> f[j] != Preamble
  }

  /** A prefix of an incomplete frame is incomplete too: its header, once present, is the same. */
  lemma IncompletePrefix(p: seq<Byte>, q: seq<Byte>)
    requires |q| <= |p| && q == p[..|q|] && Incomplete(p)
    ensures Incomplete(q)
  {
    if |q| >= 3 {
      assert q[1] == p[1] && q[2] == p[2];
    }
  }

  /**
   * From an empty RTCM buffer, a preamble followed by bytes that are not 0xD3,
   * short of the declared end, is only buffered.
   */
  lemma {:induction false} StartedFrameBuffered(s: Splitter, p: seq<Byte>)
    requires s.rtcm == [] && p != [] && p[0] == Preamble && NoInnerPreamble(p) && Incomplete(p)
    ensures Split(s, p) == (Splitter(p, s.nmea), [])
    decreases |p|
  {
    var q, b := p[..|p| - 1], p[|p| - 1];
    assert p == q + [b];
    if q == [] {
      assert Split(s, q) == (s, []);
      assert Step(s, b) == (Splitter(p, s.nmea), []);
      SplitSnocQuiet(s, q, b, Splitter(p, s.nmea));
    } else {
      assert NoInnerPreamble(q) by {
        assert forall j :: 1 <= j < |q| ==> q[j] == p[j];
      }
      IncompletePrefix(p, q);
      StartedFrameBuffered(s, q);
      StepGrows(Splitter(q, s.nmea), b, p);
      SplitSnocQuiet(s, q, b, Splitter(p, s.nmea));
    }
  }

  /** A whole frame without an inner 0xD3 is handed on exactly, and the RTCM buffer is empty again. */
  lemma FrameHandedOn(s: Splitter, f: seq<Byte>)
    requires s.rtcm == [] && Rtcm.IsFramed(f) && NoInnerPreamble(f)
    ensures Split(s, f) == (Splitter([], s.nmea), [RtcmPiece(f)])
  {
    var p, b := f[..|f| - 1], f[|f| - 1];
    assert f == p + [b];
    assert p[1] == f[1] && p[2] == f[2];
    assert NoInnerPreamble(p) by {
      assert forall j :: 1 <= j < |p| ==> p[j] == f[j];
    }
    StartedFrameBuffered(s, p);
    StepCompletes(Splitter(p, s.nmea), b, f);
    SplitSnocOne(s, p, b, Splitter([], s.nmea), RtcmPiece(f));
  }

  /**
   * A 0xD3 inside a frame (the first one after the preamble, at j) restarts
   * the buffer: what came before it is handed on as a piece shorter than the
   * frame, and the frame itself is never handed on whole.
   */
  lemma InnerPreambleSplitsFrame(s: Splitter, f: seq<Byte>, j: nat)
    requires s.rtcm == [] && Rtcm.IsFramed(f)
    requires 1 <= j < |f| && f[j] == Preamble && NoInnerPreamble(f[..j])
    ensures Split(s, f[..j + 1]) == (Splitter([Preamble], s.nmea), [RtcmPiece(f[..j])])
    ensures |f[..j]| < |f|
  {
    var p := f[..j];
    assert f[..j + 1] == p + [f[j]];
    assert Incomplete(p) by {
      if j >= 3 {
        assert p[1] == f[1] && p[2] == f[2];
      }
    }
    StartedFrameBuffered(s, p);
    assert Step(Splitter(p, s.nmea), f[j]) == (Splitter([Preamble], s.nmea), [RtcmPiece(p)]);
    SplitSnocOne(s, p, f[j], Splitter([Preamble], s.nmea), RtcmPiece(p));
  }

  /** Bytes that are none of 0xD3, '$' and LF. */
  predicate Plain(bs: seq<Byte>) {
    forall j :: 0 <= j < |bs| ==> bs[j] != Preamble && bs[j] != Dollar && bs[j] != Newline
  }

  /** With no sentence started, plain bytes are dropped without a trace. */
  lemma {:induction false} NoiseDropped(data: seq<Byte>)
    requires Plain(data)
    ensures Split(Splitter([], []), data) == (Splitter([], []), [])
  {
    if data != [] {
      var d := data[..|data| - 1];
      assert Plain(d) by {
        assert forall j :: 0 <= j < |d| ==> d[j] == data[j];
      }
      NoiseDropped(d);
      assert data == d + [data[|data| - 1]];
      SplitSnocQuiet(Splitter([], []), d, data[|data| - 1], Splitter([], []));
    }
  }

  /** With no frame in progress, '$', plain bytes and LF are handed on as one NMEA line. */
  lemma SentenceHandedOn(s: Splitter, body: seq<Byte>)
    requires s.rtcm == [] && Plain(body)
    ensures Split(s, [Dollar] + body + [Newline]) == (Splitter([], []), [NmeaLine([Dollar] + body + [Newline])])
  {
    var line := [Dollar] + body;
    assert line[1..] == body;
    LineBuffered(s, line);
    assert [Dollar] + body + [Newline] == line + [Newline];
    assert Step(Splitter([], line), Newline) == (Splitter([], []), [NmeaLine(line + [Newline])]);
    SplitSnocOne(s, line, Newline, Splitter([], []), NmeaLine(line + [Newline]));
  }

  lemma PlainPrefix(a: seq<Byte>, n: nat)
    requires n <= |a| && Plain(a)
    ensures Plain(a[..n])
  {
    assert forall j :: 0 <= j < n ==> a[..n][j] == a[j];
  }

  /** From an empty RTCM buffer, '$' followed by plain bytes is only buffered, as a sentence in progress. */
  lemma {:induction false} LineBuffered(s: Splitter, line: seq<Byte>)
    requires s.rtcm == [] && line != [] && line[0] == Dollar && Plain(line[1..])
    ensures Split(s, line) == (Splitter([], line), [])
    decreases |line|
  {
    var q, b := line[..|line| - 1], line[|line| - 1];
    assert line == q + [b];
    if q == [] {
      assert Split(s, q) == (s, []);
      assert Step(s, b) == (Splitter([], line), []);
      SplitSnocQuiet(s, q, b, Splitter([], line));
    } else {
      PlainPrefix(line[1..], |q| - 1);
      assert q[1..] == line[1..][..|q| - 1];
      LineBuffered(s, q);
      assert b == line[1..][|q| - 1];
      StepLine(Splitter([], q), b);
      SplitSnocQuiet(s, q, b, Splitter([], line));
    }
  }

  // ---- what reaches the callbacks and the status ----

  /** bytes.decode('ascii', errors='ignore'): bytes above 127 are dropped. */
  function AsciiDecode(bs: seq<Byte>): (s: string)
    ensures |s| <= |bs| && IsAscii(s)
  {
    if bs == [] then []
    else
      var rest := AsciiDecode(bs[1..]);
      if bs[0] < 128 then [bs[0] as char] + rest else rest
  }

  lemma {:induction false} AsciiDecodeKeepsAscii(bs: seq<Byte>)
    requires AllAscii(bs)
    ensures |AsciiDecode(bs)| == |bs|
    ensures forall i :: 0 <= i < |bs| ==> AsciiDecode(bs)[i] == bs[i] as char
    decreases |bs|
  {
    if bs != [] {
      var tail := bs[1..];
      assert AllAscii(tail) by {
        assert forall i :: 0 <= i < |tail| ==> tail[i] == bs[i + 1];
      }
      AsciiDecodeKeepsAscii(tail);
      var t := AsciiDecode(tail);
      assert AsciiDecode(bs) == [bs[0] as char] + t;
      forall i | 0 <= i < |bs|
        ensures AsciiDecode(bs)[i] == bs[i] as char
      {
        if i > 0 {
          assert AsciiDecode(bs)[i] == t[i - 1];
          assert tail[i - 1] == bs[i];
        }
      }
    }
  }

  /** _process_rtcm hands data to the RTCM callback: at least 6 bytes and a leading 0xD3. */
  predicate RtcmForwarded(data: seq<Byte>) {
    |data| >= 6 && data[0] == Preamble
  }

  /** The state the callbacks and _process_nmea leave behind. */
  datatype Receiver = Receiver(status: GpsStatus, frames: seq<seq<Byte>>, sentences: seq<string>)

  /** One piece, as _process_rtcm or (after decode and strip) _process_nmea treats it. */
  function Handle(r: Receiver, p: Piece, now: int, rtcmCallback: bool, nmeaCallback: bool): Receiver {
    match p
    case RtcmPiece(d) =>
      if RtcmForwarded(d) && rtcmCallback then r.(frames := r.frames + [d]) else r
    case NmeaLine(l) =>
      var sentence := Text.Strip(AsciiDecode(l));
      r.(status := GgaUpdate(r.status, sentence, now),
         sentences := r.sentences + (if Text.StartsWith(sentence, "$") && nmeaCallback then [sentence] else []))
  }

  function HandleAll(r: Receiver, ps: seq<Piece>, now: int, rtcmCallback: bool, nmeaCallback: bool): Receiver {
    if ps == [] then r
    else Handle(HandleAll(r, ps[..|ps| - 1], now, rtcmCallback, nmeaCallback), ps[|ps| - 1], now, rtcmCallback, nmeaCallback)
  }

  /** Handling two runs of pieces one after the other is handling their concatenation. */
  lemma {:induction false} HandleAllConcat(r: Receiver, ps: seq<Piece>, qs: seq<Piece>, now: int, rc: bool, nc: bool)
    ensures HandleAll(r, ps + qs, now, rc, nc) == HandleAll(HandleAll(r, ps, now, rc, nc), qs, now, rc, nc)
    decreases |qs|
  {
    if qs == [] {
      assert ps + qs == ps;
    } else {
      var q0 := qs[..|qs| - 1];
      assert (ps + qs)[..|ps + qs| - 1] == ps + q0;
      HandleAllConcat(r, ps, q0, now, rc, nc);
    }
  }

  /** Every frame that reaches the RTCM callback starts with 0xD3 and has at least 6 bytes. */
  predicate AllForwarded(fs: seq<seq<Byte>>) {
    forall k :: 0 <= k < |fs| ==> RtcmForwarded(fs[k])
  }

  lemma {:induction false} HandleAllForwards(r: Receiver, ps: seq<Piece>, now: int, rc: bool, nc: bool)
    requires AllForwarded(r.frames)
    ensures AllForwarded(HandleAll(r, ps, now, rc, nc).frames)
    ensures |HandleAll(r, ps, now, rc, nc).frames| >= |r.frames|
  {
    if ps != [] {
      HandleAllForwards(r, ps[..|ps| - 1], now, rc, nc);
    }
  }

  /** The reads of one _read_loop run, each handled at the time it arrived. */
  function RunReads(s: Splitter, r: Receiver, chunks: seq<seq<Byte>>, clock: seq<int>, rc: bool, nc: bool): (Splitter, Receiver)
    requires |clock| == |chunks|
  {
    if chunks == [] then (s, r)
    else
      var k := |chunks| - 1;
      var prev := RunReads(s, r, chunks[..k], clock[..k], rc, nc);
      var split := Split(prev.0, chunks[k]);
      (split.0, HandleAll(prev.1, split.1, clock[k], rc, nc))
  }

  /** Whatever the reads, the buffers end in shape. */
  lemma {:induction false} RunReadsShape(s: Splitter, r: Receiver, chunks: seq<seq<Byte>>, clock: seq<int>, rc: bool, nc: bool)
    requires |clock| == |chunks| && Buffered(s)
    ensures Buffered(RunReads(s, r, chunks, clock, rc, nc).0)
    ensures AllForwarded(r.frames) ==> AllForwarded(RunReads(s, r, chunks, clock, rc, nc).1.frames)
  {
    if chunks != [] {
      var k := |chunks| - 1;
      RunReadsShape(s, r, chunks[..k], clock[..k], rc, nc);
      var prev := RunReads(s, r, chunks[..k], clock[..k], rc, nc);
      SplitKeepsShape(prev.0, chunks[k]);
      if AllForwarded(r.frames) {
        HandleAllForwards(prev.1, Split(prev.0, chunks[k]).1, clock[k], rc, nc);
      }
    }
  }

  /** LC29HSerial: the command log, the callbacks' view of the stream and the GGA status. */
  class Lc29hSerial {
    /** `serial_conn and serial_conn.is_open`. */
    var isOpen: bool
    /** Every command written to the port, in order. */
    var sent: seq<string>
    var hasRtcmCallback: bool
    var hasNmeaCallback: bool
    var status: GpsStatus
    /** Every byte string handed to the RTCM callback, in order. */
    var rtcmDelivered: seq<seq<Byte>>
    /** Every sentence handed to the NMEA callback, in order. */
    var nmeaDelivered: seq<string>

    constructor (isOpen: bool)
      ensures this.isOpen == isOpen && sent == [] && status == InitialStatus
      ensures !hasRtcmCallback && !hasNmeaCallback && rtcmDelivered == [] && nmeaDelivered == []
    {
      this.isOpen := isOpen;
      sent := [];
      hasRtcmCallback, hasNmeaCallback := false, false;
      status := InitialStatus;
      rtcmDelivered, nmeaDelivered := [], [];
    }

    function View(): Receiver
      reads this
    {
      Receiver(status, rtcmDelivered, nmeaDelivered)
    }

    method SetRtcmCallback()
      modifies this
      ensures hasRtcmCallback && View() == old(View()) && hasNmeaCallback == old(hasNmeaCallback)
      ensures isOpen == old(isOpen) && sent == old(sent)
    {
      hasRtcmCallback := true;
    }

    method SetNmeaCallback()
      modifies this
      ensures hasNmeaCallback && View() == old(View()) && hasRtcmCallback == old(hasRtcmCallback)
      ensures isOpen == old(isOpen) && sent == old(sent)
    {
      hasNmeaCallback := true;
    }

    /** _send_command: written only while the port is open. */
    method SendCommand(command: string)
      modifies this
      ensures sent == old(sent) + (if isOpen then [command] else [])
      ensures isOpen == old(isOpen) && View() == old(View())
      ensures hasRtcmCallback == old(hasRtcmCallback) && hasNmeaCallback == old(hasNmeaCallback)
    {
      if isOpen {
        sent := sent + [command];
      }
    }

    /**
     * configure_base_mode: PAIR065 (base mode), then PAIR062 with the fixed
     * position, whose coordinates arrive already formatted as text.
     */
    method ConfigureBaseMode(lat: string, lon: string, alt: string)
      modifies this
      ensures sent == old(sent) + (if isOpen then [BaseModeCommand(), Command(PositionBody(lat, lon, alt))] else [])
      ensures isOpen == old(isOpen) && View() == old(View())
      ensures hasRtcmCallback == old(hasRtcmCallback) && hasNmeaCallback == old(hasNmeaCallback)
    {
      var cs := CalcChecksum(BaseModeBody);
      CommandText(BaseModeBody, cs);
      SendCommand("$" + BaseModeBody + "*" + cs + "\r\n");
      var posCmd := "PAIR062," + lat + "," + lon + "," + alt;
      var posCs := CalcChecksum(posCmd);
      CommandText(posCmd, posCs);
      SendCommand("$" + posCmd + "*" + posCs + "\r\n");
    }

    /** disconnect: the port is closed; nothing more is written. */
    method Disconnect()
      modifies this
      ensures !isOpen && sent == old(sent) && View() == old(View())
      ensures hasRtcmCallback == old(hasRtcmCallback) && hasNmeaCallback == old(hasNmeaCallback)
    {
      isOpen := false;
    }

    /** enable_rtcm_output: one PAIR050 command per type, in order; the default list for None. */
    method EnableRtcmOutput(messages: Option<seq<int>>)
      modifies this
      ensures sent == old(sent) + (if isOpen then RtcmOutputCommands(messages.GetOr(DefaultRtcmMessages)) else [])
      ensures isOpen == old(isOpen) && View() == old(View())
      ensures hasRtcmCallback == old(hasRtcmCallback) && hasNmeaCallback == old(hasNmeaCallback)
    {
      var types := if messages.None? then DefaultRtcmMessages else messages.value;
      SendRtcmOutput(types);
    }

    /** The loop of enable_rtcm_output over the chosen types. */
    method SendRtcmOutput(types: seq<int>)
      modifies this
      ensures sent == old(sent) + (if isOpen then RtcmOutputCommands(types) else [])
      ensures isOpen == old(isOpen) && View() == old(View())
      ensures hasRtcmCallback == old(hasRtcmCallback) && hasNmeaCallback == old(hasNmeaCallback)
    {
      for i := 0 to |types|
        invariant sent == old(sent) + (if isOpen then RtcmOutputCommands(types[..i]) else [])
        invariant isOpen == old(isOpen) && View() == old(View())
        invariant hasRtcmCallback == old(hasRtcmCallback) && hasNmeaCallback == old(hasNmeaCallback)
      {
        ghost var done := types[..i];
        assert types[..i + 1] == done + [types[i]];
        var cmd := RtcmOutputCommand(types[i]);
        MapSeqSnoc(PairCommand, done, types[i]);
        LogSnoc(sent, RtcmOutputCommands(done), cmd, isOpen);
        SendCommand(cmd);
      }
      assert types[..|types|] == types;
    }

    /** _process_rtcm. */
    method ProcessRtcm(rtcmData: seq<Byte>)
      modifies this
      ensures rtcmDelivered == old(rtcmDelivered) + (if RtcmForwarded(rtcmData) && hasRtcmCallback then [rtcmData] else [])
      ensures status == old(status) && nmeaDelivered == old(nmeaDelivered)
      ensures isOpen == old(isOpen) && sent == old(sent)
      ensures hasRtcmCallback == old(hasRtcmCallback) && hasNmeaCallback == old(hasNmeaCallback)
    {
      if |rtcmData| < 6 {
        return;
      }
      if rtcmData[0] == Preamble {
        var msgType := Rtcm.MessageType(rtcmData[3], rtcmData[4]);
        if hasRtcmCallback {
          rtcmDelivered := rtcmDelivered + [rtcmData];
        }
      }
    }

    /**
     * The try block of _process_nmea: fix quality, fix type, satellites, HDOP
     * and last_update are written one after another, and the first parse that
     * fails (ValueError) stops the writes.
     */
    method WriteGgaFields(fix: string, sats: string, hdop: string, now: int)
      modifies this
      ensures status == ApplyGga(old(status), IntOrZero(fix), FixTypeName(fix), IntOrZero(sats), FloatOrZero(hdop), now)
      ensures View().frames == old(View().frames) && View().sentences == old(View().sentences)
      ensures isOpen == old(isOpen) && sent == old(sent)
      ensures hasRtcmCallback == old(hasRtcmCallback) && hasNmeaCallback == old(hasNmeaCallback)
    {
      var q := IntOrZero(fix);
      if q.None? {
        return;
      }
      status := status.(fixQuality := q.value);
      status := status.(fixType := FixTypeName(fix));
      var n := IntOrZero(sats);
      if n.None? {
        return;
      }
      status := status.(satellites := n.value);
      var h := FloatOrZero(hdop);
      if h.None? {
        return;
      }
      status := status.(hdop := h.value);
      status := status.(lastUpdate := Some(now));
    }

    /** _process_nmea: only a GGA sentence with more than nine fields touches the status. */
    method ProcessNmea(sentence: string, now: int)
      modifies this
      ensures status == GgaUpdate(old(status), sentence, now)
      ensures nmeaDelivered == old(nmeaDelivered) + (if Text.StartsWith(sentence, "$") && hasNmeaCallback then [sentence] else [])
      ensures rtcmDelivered == old(rtcmDelivered) && isOpen == old(isOpen) && sent == old(sent)
      ensures hasRtcmCallback == old(hasRtcmCallback) && hasNmeaCallback == old(hasNmeaCallback)
    {
      if !Text.StartsWith(sentence, "$") {
        return;
      }
      if Text.Contains(sentence, "GGA") {
        var parts := Text.SplitOn(sentence, ",");
        if |parts| > 9 {
          var fix, sats, hdop := parts[6], parts[7], parts[8];
          assert (fix, sats, hdop) == GgaFields(sentence);
          WriteGgaFields(fix, sats, hdop, now);
        }
      }
      if hasNmeaCallback {
        nmeaDelivered := nmeaDelivered + [sentence];
      }
    }

    /** get_gps_status: nothing is changed. */
    function GetGpsStatus(now: int): (r: StatusReport)
      reads this
      ensures r.status == status
      ensures r.stale <==> (status.lastUpdate.None? || status.lastUpdate.value == 0 || now - status.lastUpdate.value > 5000)
    {
      StatusAt(status, now)
    }

    /**
     * One iteration of `for byte in data`, with the loop's two buffers passed
     * in and handed back.
     */
    method FeedByte(rtcm0: seq<Byte>, nmea0: seq<Byte>, b: Byte, now: int)
      returns (rtcmBuffer: seq<Byte>, nmeaBuffer: seq<Byte>)
      modifies this
      ensures Splitter(rtcmBuffer, nmeaBuffer) == Step(Splitter(rtcm0, nmea0), b).0
      ensures View() == HandleAll(old(View()), Step(Splitter(rtcm0, nmea0), b).1, now, hasRtcmCallback, hasNmeaCallback)
      ensures isOpen == old(isOpen) && sent == old(sent)
      ensures hasRtcmCallback == old(hasRtcmCallback) && hasNmeaCallback == old(hasNmeaCallback)
    {
      rtcmBuffer, nmeaBuffer := rtcm0, nmea0;
      if b == Preamble {
        if rtcmBuffer != [] {
          ProcessRtcm(rtcmBuffer);
        }
        rtcmBuffer := [b];
      } else if rtcmBuffer != [] {
        rtcmBuffer := rtcmBuffer + [b];
        if |rtcmBuffer| >= 3 {
          var msgLen := Rtcm.DeclaredLength(rtcmBuffer[1], rtcmBuffer[2]);
          if |rtcmBuffer| >= msgLen + 6 {
            ProcessRtcm(rtcmBuffer[..msgLen + 6]);
            rtcmBuffer := [];
          }
        }
      } else {
        if b == Dollar {
          nmeaBuffer := [b];
        } else if nmeaBuffer != [] {
          nmeaBuffer := nmeaBuffer + [b];
          if b == Newline {
            var sentence := Text.Strip(AsciiDecode(nmeaBuffer));
            ProcessNmea(sentence, now);
            nmeaBuffer := [];
          }
        }
      }
    }

    /**
     * The body of `for byte in data` for one read, arriving at time now, with
     * the loop's two buffers passed in and handed back.
     */
    method ReadChunk(rtcm0: seq<Byte>, nmea0: seq<Byte>, data: seq<Byte>, now: int)
      returns (rtcmBuffer: seq<Byte>, nmeaBuffer: seq<Byte>)
      modifies this
      ensures Splitter(rtcmBuffer, nmeaBuffer) == Split(Splitter(rtcm0, nmea0), data).0
      ensures View() == HandleAll(old(View()), Split(Splitter(rtcm0, nmea0), data).1, now, hasRtcmCallback, hasNmeaCallback)
      ensures isOpen == old(isOpen) && sent == old(sent)
      ensures hasRtcmCallback == old(hasRtcmCallback) && hasNmeaCallback == old(hasNmeaCallback)
    {
      ghost var s0 := Splitter(rtcm0, nmea0);
      rtcmBuffer, nmeaBuffer := rtcm0, nmea0;
      for i := 0 to |data|
        invariant Splitter(rtcmBuffer, nmeaBuffer) == Split(s0, data[..i]).0
        invariant View() == HandleAll(old(View()), Split(s0, data[..i]).1, now, hasRtcmCallback, hasNmeaCallback)
        invariant isOpen == old(isOpen) && sent == old(sent)
        invariant hasRtcmCallback == old(hasRtcmCallback) && hasNmeaCallback == old(hasNmeaCallback)
      {
        ghost var handed := Split(s0, data[..i]).1;
        ghost var fed := Step(Splitter(rtcmBuffer, nmeaBuffer), data[i]).1;
        ghost var mid := View();
        rtcmBuffer, nmeaBuffer := FeedByte(rtcmBuffer, nmeaBuffer, data[i], now);
        assert data[..i + 1] == data[..i] + [data[i]];
        SplitSnoc(s0, data[..i], data[i]);
        HandleAllConcat(old(View()), handed, fed, now, hasRtcmCallback, hasNmeaCallback);
      }
      assert data[..|data|] == data;
    }

    /**
     * _read_loop over a sequence of reads, read k arriving at clock[k]: the
     * buffers start empty and persist from one read to the next.
     */
    method ReadLoop(chunks: seq<seq<Byte>>, clock: seq<int>)
      requires |clock| == |chunks|
      modifies this
      ensures View() == RunReads(Splitter([], []), old(View()), chunks, clock, hasRtcmCallback, hasNmeaCallback).1
      ensures isOpen == old(isOpen) && sent == old(sent)
      ensures hasRtcmCallback == old(hasRtcmCallback) && hasNmeaCallback == old(hasNmeaCallback)
    {
      var rtcmBuffer: seq<Byte>, nmeaBuffer: seq<Byte> := [], [];
      for k := 0 to |chunks|
        invariant (Splitter(rtcmBuffer, nmeaBuffer), View()) ==
          RunReads(Splitter([], []), old(View()), chunks[..k], clock[..k], hasRtcmCallback, hasNmeaCallback)
        invariant isOpen == old(isOpen) && sent == old(sent)
        invariant hasRtcmCallback == old(hasRtcmCallback) && hasNmeaCallback == old(hasNmeaCallback)
      {
        assert chunks[..k + 1][..k] == chunks[..k] && clock[..k + 1][..k] == clock[..k];
        rtcmBuffer, nmeaBuffer := ReadChunk(rtcmBuffer, nmeaBuffer, chunks[k], clock[k]);
      }
      assert chunks[..|chunks|] == chunks && clock[..|clock|] == clock;
    }
  }
}
