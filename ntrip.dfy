/**
 * The NTRIP caster of ntrip_server.py: the request routing of
 * _handle_client, HTTP Basic authentication (section 2 of RFC 7617), the
 * HTTP responses and the sourcetable, and the NTRIPServer object whose
 * client registry broadcast_rtcm fans corrections out to. Sockets are an
 * oracle: each send is told whether it succeeds.
 */
module Ntrip {
  import opened Wrappers
  import opened Bytes
  import Text
  import Base64
  import Utf8

  // ---- responses ----

  const ServerLine: string := "Server: LC29H-NTRIP-Server/1.0"

  /** _send_response: status line, Server header, the extra headers, blank line. */
  function ResponseText(code: nat, message: string, extra: string): string {
    "HTTP/1.1 " + Text.IntToString(code) + " " + message + Text.CRLF
    + ServerLine + Text.CRLF + extra + Text.CRLF
  }

  /** How an HTTP client reads the status code: the second word of the first line. */
  function StatusCode(response: string): Option<int> {
    var words := Text.SplitWhitespace(Text.SplitOn(response, Text.CRLF)[0]);
    if |words| < 2 then None else Text.ParseInt(words[1])
  }

  /** A client reading any response of the caster gets the code it was sent with. */
  lemma ResponseStatusRoundTrip(code: nat, message: string, extra: string)
    requires '\r' !in message
    ensures StatusCode(ResponseText(code, message, extra)) == Some(code)
  {
    var d := Text.IntToString(code);
    Text.DigitsHaveNoSpace(d);
    var first := "HTTP/1.1 " + d + " " + message;
    var rest := ServerLine + Text.CRLF + extra + Text.CRLF;
    assert ResponseText(code, message, extra) == first + Text.CRLF + rest;
    assert '\r' !in first by {
      assert first == "HTTP/1.1 " + (d + (" " + message));
    }
    Text.SplitCrlfCons(first, rest);
    StatusLineWords(d, message);
    Text.ParseIntRoundTrip(code);
  }

  /** The second word of a status line is the code. */
  lemma StatusLineWords(d: string, message: string)
    requires d != [] && Text.NoSpace(d)
    ensures var words := Text.SplitWhitespace("HTTP/1.1 " + d + " " + message);
      |words| >= 2 && words[1] == d
  {
    assert "HTTP/1.1 " + d + " " + message == "HTTP/1.1" + " " + (d + " " + message);
    Text.SplitWhitespaceCons("HTTP/1.1", d + " " + message);
    Text.SplitWhitespaceLeadingSpace(d + " " + message);
    Text.SplitWhitespaceCons(d, message);
  }

  // ---- authentication ----

  /** The Authorization value a client sends for a user and password (RFC 7617, section 2). */
  function BasicHeader(user: string, password: string): string {
    "Basic " + Base64.Encode(Utf8.Encode(user + ":" + password))
  }

  /**
   * The user and password a header carries: it starts with "Basic ", the
   * rest is Base64 of UTF-8 text, and the text splits at its first ':'.
   */
  function BasicCredentials(header: string): (r: Option<(string, string)>)
    ensures r.Some? ==> Text.StartsWith(header, "Basic ") && ':' !in r.value.0
    ensures r.Some? ==> (Base64.Decode(header[6..]).Some?
      && Utf8.Decode(Base64.Decode(header[6..]).value) == Some(r.value.0 + ":" + r.value.1))
  {
    if !Text.StartsWith(header, "Basic ") then None
    else
      match Base64.Decode(header[6..])
      case None => None
      case Some(bytes) =>
        match Utf8.Decode(bytes)
        case None => None
        case Some(text) => Text.SplitOnce(text, ':')
  }

  /** _verify_auth: the header names a known user with that user's password; every failure is false. */
  function VerifyAuth(header: string, credentials: map<string, string>): bool {
    match BasicCredentials(header)
    case None => false
    case Some((user, password)) => user in credentials && credentials[user] == password
  }

  /** The header a client builds carries back its user and password. */
  lemma BasicRoundTrip(user: string, password: string)
    requires ':' !in user
    ensures BasicCredentials(BasicHeader(user, password)) == Some((user, password))
  {
    var text := user + ":" + password;
    var bytes := Utf8.Encode(text);
    var h := BasicHeader(user, password);
    assert h[..6] == "Basic ";
    assert h[6..] == Base64.Encode(bytes);
    Base64.DecodeEncode(bytes);
    Utf8.DecodeEncode(text);
    Text.SplitOnceAt(user, ':', password);
  }

  /** A client's header passes the check if and only if its password is the stored one. */
  lemma VerifyAuthRoundTrip(user: string, password: string, credentials: map<string, string>)
    requires ':' !in user
    ensures VerifyAuth(BasicHeader(user, password), credentials)
      <==> user in credentials && credentials[user] == password
  {
    BasicRoundTrip(user, password);
  }

  /** A header that does not start with "Basic " never passes. */
  lemma VerifyAuthNeedsBasic(header: string, credentials: map<string, string>)
    requires !Text.StartsWith(header, "Basic ")
    ensures !VerifyAuth(header, credentials)
  {
  }

  // ---- routing ----

  const AuthorizationPrefix: string := "Authorization:"

  /**
   * The value of the first "Authorization:" line with surrounding
   * whitespace stripped; None when no line starts that way.
   */
  function AuthorizationOf(lines: seq<string>): Option<string>
    decreases |lines|
  {
    if lines == [] then None
    else if Text.StartsWith(lines[0], AuthorizationPrefix) then Some(Text.Strip(lines[0][14..]))
    else AuthorizationOf(lines[1..])
  }

  /** AuthorizationOf finds nothing exactly when no line starts with "Authorization:". */
  lemma {:induction false} AuthorizationAbsent(lines: seq<string>)
    ensures AuthorizationOf(lines).None? <==>
      forall k :: 0 <= k < |lines| ==> !Text.StartsWith(lines[k], AuthorizationPrefix)
    decreases |lines|
  {
    if lines != [] && !Text.StartsWith(lines[0], AuthorizationPrefix) {
      AuthorizationAbsent(lines[1..]);
      assert forall k :: 1 <= k < |lines| ==> lines[k] == lines[1..][k - 1];
    }
  }

  /** What AuthorizationOf finds is the value of the first line that starts with "Authorization:". */
  lemma {:induction false} AuthorizationFirst(lines: seq<string>)
    ensures AuthorizationOf(lines).Some? ==> exists k :: (0 <= k < |lines|
      && Text.StartsWith(lines[k], AuthorizationPrefix)
      && AuthorizationOf(lines).value == Text.Strip(lines[k][14..])
      && forall j :: 0 <= j < k ==> !Text.StartsWith(lines[j], AuthorizationPrefix))
    decreases |lines|
  {
    if lines != [] && Text.StartsWith(lines[0], AuthorizationPrefix) {
      assert Text.StartsWith(lines[0], AuthorizationPrefix) && AuthorizationOf(lines).value == Text.Strip(lines[0][14..]);
    } else if lines != [] && AuthorizationOf(lines).Some? {
      var tail := lines[1..];
      assert AuthorizationOf(lines) == AuthorizationOf(tail);
      AuthorizationFirst(tail);
      var k :| 0 <= k < |tail| && Text.StartsWith(tail[k], AuthorizationPrefix)
        && AuthorizationOf(tail).value == Text.Strip(tail[k][14..])
        && forall j :: 0 <= j < k ==> !Text.StartsWith(tail[j], AuthorizationPrefix);
      assert Text.StartsWith(lines[k + 1], AuthorizationPrefix)
        && AuthorizationOf(lines).value == Text.Strip(lines[k + 1][14..]) by {
        assert lines[k + 1] == tail[k];
      }
      assert forall j :: 0 <= j < k + 1 ==> !Text.StartsWith(lines[j], AuthorizationPrefix) by {
        forall j | 0 <= j < k + 1
          ensures !Text.StartsWith(lines[j], AuthorizationPrefix)
        {
          if j > 0 {
            assert lines[j] == tail[j - 1];
          }
        }
      }
    }
  }

  /** What follows "Authorization:" is what line.split(":", 1)[1] returns. */
  lemma AuthorizationValue(line: string)
    requires Text.StartsWith(line, AuthorizationPrefix)
    ensures Text.SplitOnce(line, ':') == Some(("Authorization", line[14..]))
  {
    assert line == "Authorization" + [':'] + line[14..] by {
      assert line[..14] == AuthorizationPrefix;
    }
    Text.SplitOnceAt("Authorization", ':', line[14..]);
  }

  /** The authentication step: a non-empty Authorization value that passes _verify_auth. */
  predicate Authorized(lines: seq<string>, credentials: map<string, string>) {
    match AuthorizationOf(lines)
    case None => false
    case Some(h) => h != "" && VerifyAuth(h, credentials)
  }

  /** What _handle_client does with one request. */
  datatype Decision =
    | Drop                                           // empty request: close without a reply
    | Refuse(code: nat, message: string, extra: string)  // reply, then close
    | ListSources                                    // sourcetable, then close
    | Register(mountpoint: string)                   // 200 OK; the connection becomes a client

  const BadRequest: Decision := Refuse(400, "Bad Request", "")
  const NotFound: Decision := Refuse(404, "Mountpoint not found", "")
  const Unauthorized: Decision := Refuse(401, "Unauthorized", "WWW-Authenticate: Basic realm=\"NTRIP\"\r\n")

  function RequestWords(request: string): seq<string> {
    Text.SplitWhitespace(Text.SplitOn(request, Text.CRLF)[0])
  }

  /**
   * The routing decision on the words of the request line, given whether
   * the request carries passing credentials.
   */
  function Decide(words: seq<string>, authorized: bool, known: set<string>, requireAuth: bool): Decision {
    if |words| < 3 then BadRequest
    else if words[0] == "GET" && words[1] == "/" then ListSources
    else if words[0] == "GET" && Text.StartsWith(words[1], "/") then
      var mountpoint := words[1][1..];
      if mountpoint !in known then NotFound
      else if requireAuth && !authorized then Unauthorized
      else Register(mountpoint)
    else BadRequest
  }

  /** The routing decision of _handle_client for a request, the mountpoint names and the auth settings. */
  function Route(request: string, known: set<string>, requireAuth: bool, credentials: map<string, string>): Decision {
    if request == [] then Drop
    else
      var lines := Text.SplitOn(request, Text.CRLF);
      Decide(Text.SplitWhitespace(lines[0]), Authorized(lines, credentials), known, requireAuth)
  }

  /** Only an empty request is dropped without a reply; a request line of fewer than three words is a 400. */
  lemma RouteRefusesShortRequests(request: string, known: set<string>, requireAuth: bool, credentials: map<string, string>)
    ensures Route(request, known, requireAuth, credentials) == Drop <==> request == []
    ensures request != [] && |RequestWords(request)| < 3 ==> Route(request, known, requireAuth, credentials) == BadRequest
  {
  }

  /** The sourcetable is sent exactly for GET / (with a third word on the request line). */
  lemma RouteListsSourcesOnlyForRoot(request: string, known: set<string>, requireAuth: bool, credentials: map<string, string>)
    ensures Route(request, known, requireAuth, credentials) == ListSources <==>
      (request != [] && |RequestWords(request)| >= 3
      && RequestWords(request)[0] == "GET" && RequestWords(request)[1] == "/")
  {
  }

  /**
   * A connection is registered if and only if the request line is GET
   * /name with a known, non-empty name, and, when authentication is on, an
   * Authorization line passes.
   */
  lemma DecideRegisters(words: seq<string>, authorized: bool, known: set<string>, requireAuth: bool, name: string)
    ensures Decide(words, authorized, known, requireAuth) == Register(name) <==>
      (|words| >= 3 && words[0] == "GET" && words[1] == "/" + name && name != []
      && name in known && (requireAuth ==> authorized))
  {
    if |words| >= 3 && Text.StartsWith(words[1], "/") {
      var w := words[1];
      assert w == w[..1] + w[1..];
      assert w == "/" + name ==> w[1..] == name;
    }
  }

  /** Route registers exactly the requests DecideRegisters describes, with the Authorization lines of the request. */
  lemma RouteRegisters(request: string, known: set<string>, requireAuth: bool, credentials: map<string, string>, name: string)
    ensures Route(request, known, requireAuth, credentials) == Register(name) <==>
      (request != [] && |RequestWords(request)| >= 3
      && RequestWords(request)[0] == "GET" && RequestWords(request)[1] == "/" + name && name != []
      && name in known && (requireAuth ==> Authorized(Text.SplitOn(request, Text.CRLF), credentials)))
  {
    if request != [] {
      var lines := Text.SplitOn(request, Text.CRLF);
      DecideRegisters(RequestWords(request), Authorized(lines, credentials), known, requireAuth, name);
    }
  }

  // ---- sourcetable ----

  /** The stream record that add_mountpoint stores under a name. */
  datatype Mountpoint = Mountpoint(
    identifier: string, format: string, formatDetails: string, carrier: string,
    navSystem: string, network: string, country: string, lat: string, lon: string,
    nmea: string, solution: string, generator: string, compression: string,
    authentication: string, fee: string, bitrate: string)

  /** The fields of the caster record, in sourcetable order. */
  function CasFields(host: string, port: nat): seq<string> {
    ["CAS", host, Text.IntToString(port), "LC29H RTK Base", "LC29H", "0", "USA", "0.00", "0.00", "http://example.com"]
  }

  function CasLine(host: string, port: nat): string {
    Text.JoinWith(CasFields(host, port), ";")
  }

  /** The fields of a STR record, in sourcetable order. */
  function StrFields(name: string, m: Mountpoint): seq<string> {
    ["STR", name, m.identifier, m.format, m.formatDetails, m.carrier, m.navSystem,
     m.network, m.country, m.lat, m.lon, m.nmea, m.solution, m.generator,
     m.compression, m.authentication, m.fee, m.bitrate]
  }

  function StrLine(name: string, m: Mountpoint): string {
    Text.JoinWith(StrFields(name, m), ";")
  }

  /** A reader splitting a STR line at ';' gets the fields back when none holds a ';'. */
  lemma StrLineFields(name: string, m: Mountpoint)
    requires forall k :: 0 <= k < |StrFields(name, m)| ==> ';' !in StrFields(name, m)[k]
    ensures Text.SplitOn(StrLine(name, m), ";") == StrFields(name, m)
    ensures |Text.SplitOn(StrLine(name, m), ";")| == 18
  {
    Text.SplitJoinChar(StrFields(name, m), ';');
  }

  predicate Registered(names: seq<string>, mountpoints: map<string, Mountpoint>) {
    forall k :: 0 <= k < |names| ==> names[k] in mountpoints
  }

  /** One STR line per name, in the given order. */
  function StrLines(names: seq<string>, mountpoints: map<string, Mountpoint>): (lines: seq<string>)
    requires Registered(names, mountpoints)
    ensures |lines| == |names|
    ensures forall k :: 0 <= k < |names| ==> lines[k] == StrLine(names[k], mountpoints[names[k]])
    decreases |names|
  {
    if names == [] then []
    else
      assert Registered(names[1..], mountpoints) by {
        assert forall k :: 1 <= k < |names| ==> names[1..][k - 1] == names[k];
      }
      var rest := StrLines(names[1..], mountpoints);
      var lines := [StrLine(names[0], mountpoints[names[0]])] + rest;
      assert forall k :: 1 <= k < |names| ==> lines[k] == rest[k - 1] && names[k] == names[1..][k - 1];
      lines
  }

  /** The response header of the sourcetable, up to its blank line. */
  const SourcetableHeader: seq<string> :=
    ["SOURCETABLE 200 OK", ServerLine, "Content-Type: text/plain", "Connection: close", ""]

  /** The header, one CAS line, one STR line per name in order, and ENDSOURCETABLE. */
  function SourcetableLines(host: string, port: nat, names: seq<string>, mountpoints: map<string, Mountpoint>): seq<string>
    requires Registered(names, mountpoints)
  {
    SourcetableHeader + [CasLine(host, port)] + StrLines(names, mountpoints) + ["ENDSOURCETABLE"]
  }

  /** _send_sourcetable: every line ended by CRLF, the mountpoints in insertion order. */
  function Sourcetable(host: string, port: nat, names: seq<string>, mountpoints: map<string, Mountpoint>): string
    requires Registered(names, mountpoints)
  {
    Text.JoinLines(SourcetableLines(host, port, names, mountpoints))
  }

  /** The sourcetable starts with its status line, then one CAS line, one STR line per name and ENDSOURCETABLE. */
  lemma SourcetableLayout(host: string, port: nat, names: seq<string>, mountpoints: map<string, Mountpoint>)
    requires Registered(names, mountpoints)
    ensures var lines := SourcetableLines(host, port, names, mountpoints);
      && |lines| == |names| + 7
      && lines[0] == "SOURCETABLE 200 OK"
      && lines[5] == CasLine(host, port)
      && (forall k :: 0 <= k < |names| ==> lines[6 + k] == StrLine(names[k], mountpoints[names[k]]))
      && lines[|names| + 6] == "ENDSOURCETABLE"
  {
    var strs := StrLines(names, mountpoints);
    var lines := SourcetableLines(host, port, names, mountpoints);
    assert forall k :: 0 <= k < |names| ==> lines[6 + k] == strs[k];
  }

  predicate NoCarriageReturn(m: Mountpoint) {
    forall k :: 0 <= k < 18 ==> '\r' !in StrFields("", m)[k]
  }

  predicate LinesWithoutCr(lines: seq<string>) {
    forall k :: 0 <= k < |lines| ==> '\r' !in lines[k]
  }

  /**
   * A reader splitting the sourcetable at CRLF gets its lines back (header,
   * CAS, one STR per mountpoint in insertion order, ENDSOURCETABLE) and an
   * empty piece after the final CRLF.
   */
  lemma SourcetableSplit(host: string, port: nat, names: seq<string>, mountpoints: map<string, Mountpoint>)
    requires Registered(names, mountpoints)
    requires '\r' !in host && forall k :: 0 <= k < |names| ==> '\r' !in names[k] && NoCarriageReturn(mountpoints[names[k]])
    ensures Text.SplitOn(Sourcetable(host, port, names, mountpoints), Text.CRLF)
      == SourcetableLines(host, port, names, mountpoints) + [""]
  {
    var strs := StrLines(names, mountpoints);
    assert LinesWithoutCr(strs) by {
      forall k | 0 <= k < |strs| ensures '\r' !in strs[k] {
        StrLineNoCarriageReturn(names[k], mountpoints[names[k]]);
      }
    }
    CasLineNoCarriageReturn(host, port);
    HeaderWithoutCr();
    LinesWithoutCrAppend(SourcetableHeader, [CasLine(host, port)]);
    LinesWithoutCrAppend(SourcetableHeader + [CasLine(host, port)], strs);
    LinesWithoutCrAppend(SourcetableHeader + [CasLine(host, port)] + strs, ["ENDSOURCETABLE"]);
    Text.SplitJoinLines(SourcetableLines(host, port, names, mountpoints));
  }

  lemma LinesWithoutCrAppend(a: seq<string>, b: seq<string>)
    requires LinesWithoutCr(a) && LinesWithoutCr(b)
    ensures LinesWithoutCr(a + b)
  {
    assert forall k :: |a| <= k < |a| + |b| ==> (a + b)[k] == b[k - |a|];
  }

  lemma CasLineNoCarriageReturn(host: string, port: nat)
    requires '\r' !in host
    ensures '\r' !in CasLine(host, port)
  {
    var fs := CasFields(host, port);
    Text.DigitsHaveNoSpace(fs[2]);
    assert '\r' !in fs[3] && '\r' !in fs[9];
    JoinWithout(fs, ";", '\r');
  }

  lemma HeaderWithoutCr()
    ensures LinesWithoutCr(SourcetableHeader)
  {
    assert '\r' !in ServerLine;
    assert '\r' !in SourcetableHeader[2];
  }

  lemma StrLineNoCarriageReturn(name: string, m: Mountpoint)
    requires '\r' !in name && NoCarriageReturn(m)
    ensures '\r' !in StrLine(name, m)
  {
    var fs := StrFields(name, m);
    assert forall k :: 2 <= k < 18 ==> fs[k] == StrFields("", m)[k];
    JoinWithout(fs, ";", '\r');
  }

  /** A join holds a character only if a piece or the separator does. */
  lemma {:induction false} JoinWithout(parts: seq<string>, sep: string, c: char)
    requires |parts| >= 1 && c !in sep
    requires forall k :: 0 <= k < |parts| ==> c !in parts[k]
    ensures c !in Text.JoinWith(parts, sep)
    decreases |parts|
  {
    if |parts| > 1 {
      JoinWithout(parts[1..], sep, c);
    }
  }

  /** The sourcetable text always ends with the ENDSOURCETABLE line. */
  lemma SourcetableEnd(host: string, port: nat, names: seq<string>, mountpoints: map<string, Mountpoint>)
    requires Registered(names, mountpoints)
    ensures var t := Sourcetable(host, port, names, mountpoints);
      |t| >= 16 && t[|t| - 16..] == "ENDSOURCETABLE\r\n"
  {
    var ls := SourcetableLines(host, port, names, mountpoints);
    JoinLinesSnoc(ls[..|ls| - 1], "ENDSOURCETABLE");
    assert ls[..|ls| - 1] + ["ENDSOURCETABLE"] == ls;
  }

  lemma {:induction false} JoinLinesSnoc(lines: seq<string>, last: string)
    ensures Text.JoinLines(lines + [last]) == Text.JoinLines(lines) + last + Text.CRLF
    decreases |lines|
  {
    if lines == [] {
      assert [] + [last] == [last];
      assert Text.JoinLines([last]) == last + Text.CRLF + Text.JoinLines([]);
    } else {
      assert (lines + [last])[1..] == lines[1..] + [last];
      JoinLinesSnoc(lines[1..], last);
    }
  }

  // ---- the caster object ----

  /** The text _handle_client sends for a decision. */
  function ReplyFor(d: Decision, host: string, port: nat, names: seq<string>, mountpoints: map<string, Mountpoint>): string
    requires Registered(names, mountpoints)
  {
    match d
    case Drop => ""
    case Refuse(code, message, extra) => ResponseText(code, message, extra)
    case ListSources => Sourcetable(host, port, names, mountpoints)
    case Register(_) => ResponseText(200, "OK", "Content-Type: gnss/data\r\n")
  }

  /** broadcast_rtcm's filter: no mountpoint (or an empty one) selects every client. */
  predicate Targets(mountpoint: Option<string>, c: Client) {
    mountpoint.None? || mountpoint.value == "" || c.mountpoint == mountpoint.value
  }

  /** A client is dropped when it was sent the data and the send failed. */
  predicate Evicted(mountpoint: Option<string>, c: Client, ok: bool) {
    Targets(mountpoint, c) && !ok
  }

  /** The clients whose send failed, in registry order (disconnected_clients). */
  function Failures(cs: seq<Client>, mountpoint: Option<string>, ok: seq<bool>): seq<Client>
    requires |ok| == |cs|
    decreases |cs|
  {
    if cs == [] then []
    else (if Evicted(mountpoint, cs[0], ok[0]) then [cs[0]] else []) + Failures(cs[1..], mountpoint, ok[1..])
  }

  /** The clients that stay registered, in registry order. */
  function Survivors(cs: seq<Client>, mountpoint: Option<string>, ok: seq<bool>): seq<Client>
    requires |ok| == |cs|
    decreases |cs|
  {
    if cs == [] then []
    else (if Evicted(mountpoint, cs[0], ok[0]) then [] else [cs[0]]) + Survivors(cs[1..], mountpoint, ok[1..])
  }

  predicate Distinct<T(==)>(xs: seq<T>) {
    forall i, j :: 0 <= i < j < |xs| ==> xs[i] != xs[j]
  }

  /** Python's list.remove: the first occurrence goes, everything else keeps its order. */
  function RemoveFirst<T(==)>(xs: seq<T>, x: T): (r: seq<T>)
    ensures x in xs ==> |r| == |xs| - 1
    ensures x !in xs ==> r == xs
    decreases |xs|
  {
    if xs == [] then []
    else if xs[0] == x then xs[1..]
    else [xs[0]] + RemoveFirst(xs[1..], x)
  }

  /** The elements of xs that are not in s, in order. */
  function FilterOut<T(==)>(xs: seq<T>, s: set<T>): seq<T>
    decreases |xs|
  {
    if xs == [] then []
    else (if xs[0] in s then [] else [xs[0]]) + FilterOut(xs[1..], s)
  }

  ghost function Elements<T>(xs: seq<T>): set<T> {
    set x | x in xs
  }

  lemma {:induction false} FilterOutIgnoresAbsent<T>(xs: seq<T>, s: set<T>, x: T)
    requires x !in xs
    ensures FilterOut(xs, s + {x}) == FilterOut(xs, s)
    decreases |xs|
  {
    if xs != [] {
      FilterOutIgnoresAbsent(xs[1..], s, x);
    }
  }

  /** Removing one more element of a distinct sequence extends the filter by it. */
  lemma {:induction false} RemoveFirstFilterOut<T>(xs: seq<T>, s: set<T>, x: T)
    requires Distinct(xs) && x in xs && x !in s
    ensures RemoveFirst(FilterOut(xs, s), x) == FilterOut(xs, s + {x})
    decreases |xs|
  {
    assert Distinct(xs[1..]) by {
      assert forall i :: 0 <= i < |xs[1..]| ==> xs[1..][i] == xs[i + 1];
    }
    if xs[0] == x {
      assert x !in xs[1..] by {
        forall i | 0 <= i < |xs[1..]| ensures xs[1..][i] != x {
          assert xs[1..][i] == xs[i + 1];
        }
      }
      FilterOutIgnoresAbsent(xs[1..], s, x);
    } else {
      RemoveFirstFilterOut(xs[1..], s, x);
      var y := FilterOut(xs[1..], s);
      assert FilterOut(xs, s + {x}) == (if xs[0] in s then [] else [xs[0]]) + FilterOut(xs[1..], s + {x});
      if xs[0] !in s {
        assert FilterOut(xs, s) == [xs[0]] + y;
        assert ([xs[0]] + y)[0] == xs[0] && ([xs[0]] + y)[1..] == y;
      } else {
        assert FilterOut(xs, s) == y;
      }
    }
  }

  /** Every failure is one of the clients, and a client failed exactly when its own send failed. */
  lemma {:induction false} FailuresMembership(cs: seq<Client>, mountpoint: Option<string>, ok: seq<bool>, k: nat)
    requires |ok| == |cs| && Distinct(cs) && k < |cs|
    ensures cs[k] in Failures(cs, mountpoint, ok) <==> Evicted(mountpoint, cs[k], ok[k])
    decreases |cs|
  {
    FailuresWithin(cs, mountpoint, ok);
    assert Distinct(cs[1..]) by {
      assert forall i :: 0 <= i < |cs[1..]| ==> cs[1..][i] == cs[i + 1];
    }
    if k == 0 {
      assert cs[0] !in cs[1..] by {
        forall i | 0 <= i < |cs[1..]| ensures cs[1..][i] != cs[0] {
          assert cs[1..][i] == cs[i + 1];
        }
      }
      FailuresWithin(cs[1..], mountpoint, ok[1..]);
    } else {
      assert cs[k] == cs[1..][k - 1];
      FailuresMembership(cs[1..], mountpoint, ok[1..], k - 1);
    }
  }

  lemma {:induction false} FailuresWithin(cs: seq<Client>, mountpoint: Option<string>, ok: seq<bool>)
    requires |ok| == |cs|
    ensures forall c :: c in Failures(cs, mountpoint, ok) ==> c in cs
    decreases |cs|
  {
    if cs != [] {
      FailuresWithin(cs[1..], mountpoint, ok[1..]);
    }
  }

  lemma {:induction false} FailuresDistinct(cs: seq<Client>, mountpoint: Option<string>, ok: seq<bool>)
    requires |ok| == |cs| && Distinct(cs)
    ensures Distinct(Failures(cs, mountpoint, ok))
    decreases |cs|
  {
    if cs != [] {
      assert Distinct(cs[1..]) by {
        assert forall i :: 0 <= i < |cs[1..]| ==> cs[1..][i] == cs[i + 1];
      }
      FailuresDistinct(cs[1..], mountpoint, ok[1..]);
      FailuresWithin(cs[1..], mountpoint, ok[1..]);
      assert cs[0] !in cs[1..] by {
        forall i | 0 <= i < |cs[1..]| ensures cs[1..][i] != cs[0] {
          assert cs[1..][i] == cs[i + 1];
        }
      }
      var rest := Failures(cs[1..], mountpoint, ok[1..]);
      var head: seq<Client> := if Evicted(mountpoint, cs[0], ok[0]) then [cs[0]] else [];
      assert Failures(cs, mountpoint, ok) == head + rest;
      assert forall i :: 0 <= i < |rest| ==> (head + rest)[|head| + i] == rest[i];
    }
  }

  /** Removing the failures from a distinct registry leaves exactly the survivors. */
  lemma {:induction false} FailuresLeaveSurvivors(cs: seq<Client>, mountpoint: Option<string>, ok: seq<bool>)
    requires |ok| == |cs| && Distinct(cs)
    ensures FilterOut(cs, Elements(Failures(cs, mountpoint, ok))) == Survivors(cs, mountpoint, ok)
    decreases |cs|
  {
    if cs != [] {
      assert Distinct(cs[1..]) by {
        assert forall i :: 0 <= i < |cs[1..]| ==> cs[1..][i] == cs[i + 1];
      }
      assert cs[0] !in cs[1..] by {
        forall i | 0 <= i < |cs[1..]| ensures cs[1..][i] != cs[0] {
          assert cs[1..][i] == cs[i + 1];
        }
      }
      FailuresLeaveSurvivors(cs[1..], mountpoint, ok[1..]);
      FailuresWithin(cs[1..], mountpoint, ok[1..]);
      var rest := Elements(Failures(cs[1..], mountpoint, ok[1..]));
      var all := Elements(Failures(cs, mountpoint, ok));
      if Evicted(mountpoint, cs[0], ok[0]) {
        assert all == rest + {cs[0]};
        FilterOutIgnoresAbsent(cs[1..], rest, cs[0]);
      } else {
        assert all == rest;
      }
    }
  }

  /** When every send succeeds, or no client is targeted, nobody is dropped. */
  lemma {:induction false} SurvivorsWithoutFailures(cs: seq<Client>, mountpoint: Option<string>, ok: seq<bool>)
    requires |ok| == |cs|
    requires forall k :: 0 <= k < |cs| ==> !Evicted(mountpoint, cs[k], ok[k])
    ensures Survivors(cs, mountpoint, ok) == cs
    decreases |cs|
  {
    if cs != [] {
      assert forall k :: 1 <= k < |cs| ==> cs[1..][k - 1] == cs[k] && ok[1..][k - 1] == ok[k];
      SurvivorsWithoutFailures(cs[1..], mountpoint, ok[1..]);
    }
  }

  /** A survivor is a registered client that was not evicted; survivors keep registry order. */
  lemma {:induction false} SurvivorsMembership(cs: seq<Client>, mountpoint: Option<string>, ok: seq<bool>, k: nat)
    requires |ok| == |cs| && Distinct(cs) && k < |cs|
    ensures cs[k] in Survivors(cs, mountpoint, ok) <==> !Evicted(mountpoint, cs[k], ok[k])
  {
    FailuresLeaveSurvivors(cs, mountpoint, ok);
    FailuresMembership(cs, mountpoint, ok, k);
    FilterOutMembership(cs, Elements(Failures(cs, mountpoint, ok)), cs[k]);
  }

  lemma {:induction false} FilterOutMembership<T>(xs: seq<T>, s: set<T>, x: T)
    ensures x in FilterOut(xs, s) <==> x in xs && x !in s
    decreases |xs|
  {
    if xs != [] {
      FilterOutMembership(xs[1..], s, x);
      assert xs == [xs[0]] + xs[1..];
    }
  }

  datatype ClientStats = ClientStats(address: string, mountpoint: string, connectedAt: int, bytesSent: nat)
  datatype Stats = Stats(activeClients: nat, clients: seq<ClientStats>)

  /** NTRIPClient: one registered connection and the bytes it has been sent. */
  class Client {
    const ip: string
    const port: nat
    const mountpoint: string
    /** The time of registration, as a number supplied by the caller. */
    const connectedAt: int
    var bytesSent: nat
    var closed: bool

    constructor (ip: string, port: nat, mountpoint: string, connectedAt: int)
      ensures this.ip == ip && this.port == port && this.mountpoint == mountpoint
      ensures this.connectedAt == connectedAt && bytesSent == 0 && !closed
    {
      this.ip, this.port, this.mountpoint, this.connectedAt := ip, port, mountpoint, connectedAt;
      bytesSent, closed := 0, false;
    }

    /** send_data: ok says whether sendall succeeds; only a success is counted. */
    method SendData(data: seq<Byte>, ok: bool) returns (sent: bool)
      modifies this
      ensures sent == ok && closed == old(closed)
      ensures bytesSent == old(bytesSent) + (if ok then |data| else 0)
    {
      if ok {
        bytesSent := bytesSent + |data|;
      }
      sent := ok;
    }

    method Close()
      modifies this
      ensures closed && bytesSent == old(bytesSent)
    {
      closed := true;
    }
  }

  /** NTRIPServer: the mountpoints, the credentials and the client registry. */
  class Server {
    const host: string
    const port: nat
    var running: bool
    var clients: seq<Client>
    /** The mountpoint names in insertion order (the dict's iteration order). */
    var names: seq<string>
    var mountpoints: map<string, Mountpoint>
    var requireAuth: bool
    var credentials: map<string, string>

    ghost predicate Valid()
      reads this
    {
      Distinct(clients) && Distinct(names) && Registered(names, mountpoints)
      && forall n :: n in mountpoints ==> n in names
    }

    constructor (host: string, port: nat)
      ensures Valid() && this.host == host && this.port == port
      ensures !running && clients == [] && names == [] && mountpoints == map[]
      ensures !requireAuth && credentials == map[]
    {
      this.host, this.port := host, port;
      running, clients, names, mountpoints := false, [], [], map[];
      requireAuth, credentials := false, map[];
    }

    /**
     * add_mountpoint: stores the record under the name (replacing an older
     * one in place); the identifier defaults to the name and the
     * authentication flag records whether authentication is on now.
     */
    method AddMountpoint(name: string, identifier: string := "", format: string := "RTCM 3.3",
                         formatDetails: string := "1005(10),1074(1),1084(1),1094(1),1124(1),1230(10)",
                         carrier: string := "2", navSystem: string := "GPS+GLO+GAL+BDS",
                         network: string := "FKA", country: string := "USA",
                         lat: string := "0.00", lon: string := "0.00")
      requires Valid()
      modifies this
      ensures Valid()
      ensures mountpoints == old(mountpoints)[name := Mountpoint(
        if identifier == "" then name else identifier, format, formatDetails, carrier,
        navSystem, network, country, lat, lon, "1", "0", "LC29H", "none",
        if requireAuth then "B" else "N", "N", "9600")]
      ensures names == old(names) + (if name in old(mountpoints) then [] else [name])
      ensures clients == old(clients) && requireAuth == old(requireAuth)
      ensures credentials == old(credentials) && running == old(running)
    {
      var m := Mountpoint(
        if identifier == "" then name else identifier, format, formatDetails, carrier,
        navSystem, network, country, lat, lon, "1", "0", "LC29H", "none",
        if requireAuth then "B" else "N", "N", "9600");
      if name !in mountpoints {
        assert name !in names;
        names := names + [name];
      }
      mountpoints := mountpoints[name := m];
    }

    /** set_authentication: authentication on, and one credential added or replaced. */
    method SetAuthentication(username: string, password: string)
      requires Valid()
      modifies this
      ensures Valid()
      ensures requireAuth && credentials == old(credentials)[username := password]
      ensures clients == old(clients) && names == old(names) && mountpoints == old(mountpoints)
      ensures running == old(running)
    {
      requireAuth := true;
      credentials := credentials[username := password];
    }

    /** start: bound says whether the listening socket could be opened. */
    method Start(bound: bool) returns (started: bool)
      requires Valid()
      modifies this
      ensures Valid() && started == bound && running == (bound || old(running))
      ensures clients == old(clients) && names == old(names) && mountpoints == old(mountpoints)
      ensures requireAuth == old(requireAuth) && credentials == old(credentials)
    {
      if bound {
        running := true;
      }
      started := bound;
    }

    /** stop: every client is closed and the registry is emptied. */
    method Stop()
      requires Valid()
      modifies this, clients
      ensures Valid() && !running && clients == []
      ensures forall k :: 0 <= k < |old(clients)| ==> old(clients)[k].closed
      ensures forall k :: 0 <= k < |old(clients)| ==> old(clients)[k].bytesSent == old(clients[k].bytesSent)
      ensures names == old(names) && mountpoints == old(mountpoints)
      ensures requireAuth == old(requireAuth) && credentials == old(credentials)
    {
      running := false;
      var i := 0;
      while i < |clients|
        invariant 0 <= i <= |clients| && clients == old(clients) && !running
        invariant forall k :: 0 <= k < i ==> clients[k].closed
        invariant forall k :: 0 <= k < |clients| ==> clients[k].bytesSent == old(clients[k].bytesSent)
        invariant names == old(names) && mountpoints == old(mountpoints)
        invariant requireAuth == old(requireAuth) && credentials == old(credentials)
      {
        clients[i].Close();
        i := i + 1;
      }
      clients := [];
    }

    /**
     * _handle_client for one request: the reply sent, whether the
     * connection stays open, and a fresh client at the end of the registry
     * exactly when the request is registered.
     */
    method HandleClient(request: string, ip: string, clientPort: nat, now: int) returns (reply: string, keepOpen: bool)
      requires Valid()
      modifies this
      ensures Valid()
      ensures var d := Route(request, mountpoints.Keys, requireAuth, credentials);
        && reply == ReplyFor(d, host, port, names, mountpoints)
        && keepOpen == d.Register?
        && (!d.Register? ==> clients == old(clients))
        && (d.Register? ==> (
          |clients| == |old(clients)| + 1 && clients[..|old(clients)|] == old(clients)
          && fresh(clients[|old(clients)|]) && clients[|old(clients)|].mountpoint == d.mountpoint
          && clients[|old(clients)|].ip == ip && clients[|old(clients)|].port == clientPort
          && clients[|old(clients)|].connectedAt == now
          && clients[|old(clients)|].bytesSent == 0 && !clients[|old(clients)|].closed))
      ensures names == old(names) && mountpoints == old(mountpoints) && running == old(running)
      ensures requireAuth == old(requireAuth) && credentials == old(credentials)
    {
      var d := Route(request, mountpoints.Keys, requireAuth, credentials);
      reply := ReplyFor(d, host, port, names, mountpoints);
      keepOpen := d.Register?;
      if d.Register? {
        var c := new Client(ip, clientPort, d.mountpoint, now);
        clients := clients + [c];
        assert clients[..|clients| - 1] == old(clients);
      }
    }

    /**
     * broadcast_rtcm: nothing for empty data; otherwise every targeted
     * client is sent the data (ok[k] is whether the k-th send succeeds),
     * and those whose send failed are removed, in order, and closed.
     */
    method BroadcastRtcm(data: seq<Byte>, mountpoint: Option<string>, ok: seq<bool>)
      requires Valid() && |ok| == |clients|
      modifies this, clients
      ensures Valid()
      ensures clients == (if data == [] then old(clients) else Survivors(old(clients), mountpoint, ok))
      ensures forall k :: 0 <= k < |old(clients)| ==>
        old(clients)[k].bytesSent == old(clients[k].bytesSent)
          + (if data != [] && Targets(mountpoint, old(clients)[k]) && ok[k] then |data| else 0)
      ensures forall k :: 0 <= k < |old(clients)| ==>
        old(clients)[k].closed == (old(clients[k].closed) || (data != [] && Evicted(mountpoint, old(clients)[k], ok[k])))
      ensures names == old(names) && mountpoints == old(mountpoints) && running == old(running)
      ensures requireAuth == old(requireAuth) && credentials == old(credentials)
    {
      if data == [] {
        return;
      }
      ghost var cs := clients;
      var failed := SendAll(data, mountpoint, ok);
      FailuresWithin(cs, mountpoint, ok);
      FailuresDistinct(cs, mountpoint, ok);
      assert forall i :: 0 <= i < |failed| ==> failed[i] in old(clients);
      var remaining := RemoveClients(clients, failed);
      FailuresLeaveSurvivors(cs, mountpoint, ok);
      FilterOutDistinct(cs, Elements(failed));
      clients := remaining;
      forall k | 0 <= k < |cs|
        ensures cs[k].closed == (old(cs[k].closed) || Evicted(mountpoint, cs[k], ok[k]))
      {
        FailuresMembership(cs, mountpoint, ok, k);
      }
    }

    /** The sending loop of broadcast_rtcm; the failed clients in registry order. */
    method SendAll(data: seq<Byte>, mountpoint: Option<string>, ok: seq<bool>) returns (failed: seq<Client>)
      requires Valid() && |ok| == |clients|
      modifies clients
      ensures failed == Failures(clients, mountpoint, ok)
      ensures forall k :: 0 <= k < |clients| ==>
        clients[k].bytesSent == old(clients[k].bytesSent)
          + (if Targets(mountpoint, clients[k]) && ok[k] then |data| else 0)
      ensures forall k :: 0 <= k < |clients| ==> clients[k].closed == old(clients[k].closed)
    {
      failed := [];
      var i := 0;
      while i < |clients|
        invariant 0 <= i <= |clients|
        invariant failed == Failures(clients[..i], mountpoint, ok[..i])
        invariant forall k :: 0 <= k < i ==>
          clients[k].bytesSent == old(clients[k].bytesSent)
            + (if Targets(mountpoint, clients[k]) && ok[k] then |data| else 0)
        invariant forall k :: i <= k < |clients| ==> clients[k].bytesSent == old(clients[k].bytesSent)
        invariant forall k :: 0 <= k < |clients| ==> clients[k].closed == old(clients[k].closed)
      {
        var c := clients[i];
        FailuresSnoc(clients[..i], ok[..i], mountpoint, c, ok[i]);
        if Targets(mountpoint, c) {
          var sent := c.SendData(data, ok[i]);
          if !sent {
            failed := failed + [c];
          }
        }
        assert clients[..i + 1] == clients[..i] + [c] && ok[..i + 1] == ok[..i] + [ok[i]];
        i := i + 1;
      }
      assert clients[..i] == clients && ok[..i] == ok;
    }

    /** get_stats: the number of clients and one record per client, in registry order. */
    method GetStats() returns (stats: Stats)
      ensures stats.activeClients == |clients| && |stats.clients| == |clients|
      ensures forall k :: 0 <= k < |clients| ==> stats.clients[k] == ClientStats(
        clients[k].ip + ":" + Text.IntToString(clients[k].port), clients[k].mountpoint,
        clients[k].connectedAt, clients[k].bytesSent)
    {
      var records: seq<ClientStats> := [];
      var i := 0;
      while i < |clients|
        invariant 0 <= i <= |clients| && |records| == i
        invariant forall k :: 0 <= k < i ==> records[k] == ClientStats(
          clients[k].ip + ":" + Text.IntToString(clients[k].port), clients[k].mountpoint,
          clients[k].connectedAt, clients[k].bytesSent)
      {
        var c := clients[i];
        records := records + [ClientStats(c.ip + ":" + Text.IntToString(c.port), c.mountpoint, c.connectedAt, c.bytesSent)];
        i := i + 1;
      }
      stats := Stats(|clients|, records);
    }
  }

  /**
   * The removal loop of broadcast_rtcm: each failed client is taken out of
   * the registry with list.remove and closed; nothing else changes.
   */
  method RemoveClients(cs: seq<Client>, failed: seq<Client>) returns (remaining: seq<Client>)
    requires Distinct(cs) && Distinct(failed)
    requires forall c :: c in failed ==> c in cs
    modifies failed
    ensures remaining == FilterOut(cs, Elements(failed))
    ensures forall k :: 0 <= k < |cs| ==> cs[k].bytesSent == old(cs[k].bytesSent)
    ensures forall k :: 0 <= k < |cs| ==> cs[k].closed == (old(cs[k].closed) || cs[k] in failed)
  {
    remaining := cs;
    var j := 0;
    ghost var done: set<Client> := {};
    FilterOutNone(cs);
    assert Elements(failed[..0]) == {};
    while j < |failed|
      invariant 0 <= j <= |failed| && done == Elements(failed[..j])
      invariant remaining == FilterOut(cs, done)
      invariant forall c :: c in cs ==> c.bytesSent == old(c.bytesSent)
      invariant forall c :: c in cs ==> c.closed == (old(c.closed) || c in done)
    {
      var f := failed[j];
      RemoveNext(cs, failed, j);
      remaining := RemoveFirst(remaining, f);
      f.Close();
      done := done + {f};
      j := j + 1;
    }
    assert failed[..j] == failed;
  }

  /** One step of the removal loop, on values. */
  lemma RemoveNext<T>(cs: seq<T>, failed: seq<T>, j: nat)
    requires Distinct(cs) && Distinct(failed) && j < |failed| && failed[j] in cs
    ensures RemoveFirst(FilterOut(cs, Elements(failed[..j])), failed[j]) == FilterOut(cs, Elements(failed[..j + 1]))
    ensures Elements(failed[..j + 1]) == Elements(failed[..j]) + {failed[j]}
  {
    var f := failed[j];
    assert f !in failed[..j] by {
      forall i | 0 <= i < j ensures failed[..j][i] != f {
        assert failed[..j][i] == failed[i];
      }
    }
    RemoveFirstFilterOut(cs, Elements(failed[..j]), f);
    assert failed[..j + 1] == failed[..j] + [f];
    assert Elements(failed[..j + 1]) == Elements(failed[..j]) + {f};
  }

  lemma {:induction false} FailuresSnoc(cs: seq<Client>, ok: seq<bool>, mountpoint: Option<string>, c: Client, b: bool)
    requires |ok| == |cs|
    ensures Failures(cs + [c], mountpoint, ok + [b])
      == Failures(cs, mountpoint, ok) + (if Evicted(mountpoint, c, b) then [c] else [])
    decreases |cs|
  {
    var tail: seq<Client> := if Evicted(mountpoint, c, b) then [c] else [];
    if cs == [] {
      assert cs + [c] == [c] && ok + [b] == [b];
      assert Failures([c], mountpoint, [b]) == tail + Failures([], mountpoint, []);
    } else {
      var l, m := cs + [c], ok + [b];
      assert l[0] == cs[0] && l[1..] == cs[1..] + [c];
      assert m[0] == ok[0] && m[1..] == ok[1..] + [b];
      FailuresSnoc(cs[1..], ok[1..], mountpoint, c, b);
      var head: seq<Client> := if Evicted(mountpoint, cs[0], ok[0]) then [cs[0]] else [];
      var rest := Failures(cs[1..], mountpoint, ok[1..]);
      assert Failures(l, mountpoint, m) == head + (rest + tail);
      assert Failures(cs, mountpoint, ok) == head + rest;
      assert head + (rest + tail) == (head + rest) + tail;
    }
  }

  lemma {:induction false} FilterOutNone<T>(xs: seq<T>)
    ensures FilterOut(xs, {}) == xs
    decreases |xs|
  {
    if xs != [] {
      FilterOutNone(xs[1..]);
    }
  }

  lemma {:induction false} FilterOutDistinct<T>(xs: seq<T>, s: set<T>)
    requires Distinct(xs)
    ensures Distinct(FilterOut(xs, s))
    decreases |xs|
  {
    if xs != [] {
      assert Distinct(xs[1..]) by {
        assert forall i :: 0 <= i < |xs[1..]| ==> xs[1..][i] == xs[i + 1];
      }
      FilterOutDistinct(xs[1..], s);
      FilterOutMembership(xs[1..], s, xs[0]);
      assert xs[0] !in xs[1..] by {
        forall i | 0 <= i < |xs[1..]| ensures xs[1..][i] != xs[0] {
          assert xs[1..][i] == xs[i + 1];
        }
      }
      var rest := FilterOut(xs[1..], s);
      var head: seq<T> := if xs[0] in s then [] else [xs[0]];
      assert forall i :: 0 <= i < |rest| ==> (head + rest)[|head| + i] == rest[i];
    }
  }
}
