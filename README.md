# LC29H RTK base station: RTCM3 correction pipeline in Dafny

A Quectel LC29H receiver emits, over one serial line, RTCM 3 correction frames
interleaved with NMEA sentences. The base station splits that stream, checks each
RTCM frame (preamble 0xD3, 10-bit length, CRC-24Q), and broadcasts every valid frame
to the rovers connected to its NTRIP caster. The model covers each stage of that path:

- `Rtcm` (`rtcm.dfy`) models the RTCM3 parser:
  - the length and message-type fields;
  - CRC-24Q, as a bit-level shift register;
  - `validate_message`, the 1005 station decoder and the message-name table;
  - `RTCMMessageBuffer`, a class that buffers stream bytes and turns them into valid frames.
- `GpsSerial` (`gps_serial.dfy`) models the receiver driver:
  - the NMEA command checksum and the PAIR configuration commands;
  - the read loop's byte-by-byte splitter, which separates RTCM frames and NMEA lines;
  - the RTCM and NMEA callbacks, the GGA fields stored in the status, and the staleness of the status report.
- `Ntrip` (`ntrip.dfy`) models the NTRIP caster:
  - mountpoints, authentication, start and stop;
  - the request router (400/404/401/200/sourcetable), the reply texts, the sourcetable and HTTP Basic verification;
  - `broadcast_rtcm`, including how it evicts clients whose send fails.
- `NtripTestClient` (`ntrip_test_client.dfy`) models the test rover:
  - the request it builds and how the caster routes it;
  - the success test on the reply;
  - the RTCM3 scanner;
  - the receive loop's counters and buffer trimming.
- `BaseStation` (`base_station.dfy`) models the station that ties these together:
  - the start-up order;
  - the validate-broadcast-count gate and its statistics.
- The support modules are:
  - `Wrappers` and `Bytes` in `wrappers.dfy`: `Option`, byte arithmetic, an XOR on naturals, and a 24-bit big-endian integer;
  - `Text` in `text.dfy`: Python's `split`, `strip`, `find` and `join`, decimal and hex text;
  - `Base64` in `base64.dfy`: RFC 4648 section 4;
  - `Utf8` in `utf8.dfy`: RFC 3629.

How the model treats inputs it cannot compute:

- I/O becomes parameters:
  - whether a port opens or a socket binds is a `bool`;
  - the success of each send to a client is an entry of `ok: seq<bool>`;
  - bytes and text that are received are arguments;
  - the clock is an `int` in milliseconds;
  - the commands written to the receiver are collected in a `sent` log.
- State the source mutates is modelled by classes:
  - `Rtcm.RtcmMessageBuffer`;
  - `GpsSerial.Lc29hSerial`;
  - `Ntrip.Client` and `Ntrip.Server`;
  - `NtripTestClient.Client`;
  - `BaseStation.Station`.
  The loops become methods proved against recursive specification functions: `Extract`, `Split`, `Scan`, `CountTypes`/`Consume` and `Failures`/`Survivors`.

The main results:

- **The validator decides exactly the frame predicate, in both directions.**
  - `ValidateMessageAccepts` proves it.
  - `EncodedFrameIsValid` and `ValidFrameIsEncoded` prove that valid frames are exactly what `EncodeFrame` produces.
- **The message buffer does not depend on how the stream is chunked.**
  - `ExtractChunked`, `StoredChunked` and `TwoReads` prove it.
  - Its leftover is always a suffix of the input that is an incomplete frame.
- **The splitter hands on only complete frames or lines.**
  - It hands on complete or cut-short RTCM frames and whole `$`…LF lines (`SplitKeepsShape`).
  - Splitting is chunk-independent (`SplitChunked`).
- **The caster's router agrees with the test client.**
  - A well-formed client request is registered exactly when the mountpoint exists and (with authentication on) the Basic credentials match.
  - This rests on the Base64 and UTF-8 round trips.
  - Without credentials such a request gets 401; for an unknown mountpoint it gets 404.
- **A broadcast evicts exactly the targeted clients whose send failed, and keeps everyone else in order.**
  - See `FailuresMembership`, `SurvivorsMembership` and `FailuresLeaveSurvivors`.
- **The station counts a frame only when the validator accepts it and a caster is attached (`HandleAllCounts`).**
  - Its counters never decrease.

## Model

| member | source | states |
|---|---|---|
| Rtcm.DeclaredLength | rtcm_parser.py:72 | the 10-bit length field is below 1024 |
| Rtcm.DeclaredLengthBits | rtcm_parser.py:72 | the length is (b1 & 0x03) << 8 \| b2: only the low two bits of b1 count |
| Rtcm.MessageType | rtcm_parser.py:75-78 | the 12-bit type field is below 4096 |
| Rtcm.MessageTypeBits | rtcm_parser.py:75-78 | the type's top 8 bits are payload byte 0 and its low 4 the high nibble of byte 1 |
| Rtcm.Crc24q | rtcm_parser.py:120-137 | CRC-24Q (polynomial 0x1864CFB, init 0, no reflection) fits in 24 bits |
| Rtcm.CrcRegisterFits | rtcm_parser.py:120-137 | the unmasked shift register never exceeds 24 bits, so the final mask changes nothing |
| Rtcm.CalcCrc24q | rtcm_parser.py:120-137 | the byte-by-byte, bit-by-bit loop computes Crc24q |
| Rtcm.ValidateMessage | rtcm_parser.py:54-95 | short input or a missing preamble gives (False, 0, 0); otherwise the length and type reported are the header fields, within their widths |
| Rtcm.ValidateMessageAccepts | rtcm_parser.py:54-117 | valid exactly when at least 6 bytes, preamble 0xD3, total length = declared + 6, and the last 3 bytes are the big-endian CRC-24Q of the rest |
| Rtcm.EncodeFrame | rtcm_parser.py:72-95 | a frame built from a payload is 6 bytes longer and carries the payload between header and CRC |
| Rtcm.EncodedFrameIsValid | rtcm_parser.py:54-117 | every frame built from a payload under 1024 bytes validates, with that payload length |
| Rtcm.ValidFrameIsEncoded | rtcm_parser.py:54-117 | every frame that validates is the encoding of its own payload and reserved bits |
| Rtcm.FrameTail | rtcm_parser.py:110-117 | a valid frame ends with the 3-byte CRC-24Q of everything before it |
| Rtcm.ParseMessage1005 | rtcm_parser.py:140-191 | fewer than 19 payload bytes give None; otherwise type 1005, station id from bits 12-24, ITRF year from bits 24-30, and X/Y/Z as the sign-extended 38-bit fields at bits 34, 72, 110 |
| Rtcm.Station1005YSignIsIndicator | rtcm_parser.py:172-176 | as written, Y is negative exactly when bit 72 (the DF142 indicator of RTCM 10403.3 message 1005) is set |
| Rtcm.ParseMessage1005Standard | rtcm_parser.py:140-191 | the decoder with the standard layout: fewer than 19 bytes give None; X/Y/Z are the sign-extended 38-bit fields at bits 34, 74, 114 |
| Rtcm.Station1005IgnoresIndicators | rtcm_parser.py:163-182 | in the standard layout, payloads that differ only in the indicator bits 72, 73, 112, 113 decode alike |
| Rtcm.Station1005IndicatorChangesY | rtcm_parser.py:172-176 | flipping DF142 alone changes the as-written result but not the standard one |
| Rtcm.StationFields | rtcm_parser.py:155-161 | the bit-string slices for message number, station id and ITRF read back the expected bytes and nibbles |
| Rtcm.SignExtendRoundTrip | rtcm_parser.py:167-182 | the 38-bit sign extension and two's-complement encoding are inverse on their ranges |
| Rtcm.BinDigitsValue | rtcm_parser.py:155-158 | the n binary digits of b < 2^n read back as b |
| Rtcm.Coordinate | rtcm_parser.py:167-182 | an ECEF coordinate is the signed value whose 38-bit encoding is the field |
| Rtcm.GetMessageInfo | rtcm_parser.py:17-51 | a type in the table gets its name; any other gets "Unknown Type n", from which n reads back |
| Rtcm.CandidatesFramed | rtcm_parser.py:216-255 | every candidate the extraction takes has preamble and declared length |
| Rtcm.ValidFramesFilter | rtcm_parser.py:243-250 | the stored frames are exactly the candidates that validate |
| Rtcm.ExtractTakesCandidates | rtcm_parser.py:216-255 | the mutable extraction loop's frames are the stream's candidates |
| Rtcm.ExtractRestSuffix | rtcm_parser.py:216-255 | what stays in the buffer is a suffix of what was there |
| Rtcm.ExtractRest | rtcm_parser.py:218-241 | what stays is shorter than 6 bytes or an incomplete frame starting at a preamble |
| Rtcm.ExtractChunked | rtcm_parser.py:206-255 | extracting from a then from the leftover plus b takes the same frames as extracting from a + b |
| Rtcm.CandidatesChunked | rtcm_parser.py:216-255 | the candidate frames of a + b are those of a followed by those of a's leftover plus b |
| Rtcm.RtcmMessageBuffer.constructor | rtcm_parser.py:202-204 | the buffer and message list start empty |
| Rtcm.RtcmMessageBuffer.AddData | rtcm_parser.py:206-214 | the buffer becomes the leftover and the messages grow by the valid frames extracted from old buffer + data |
| Rtcm.RtcmMessageBuffer.ExtractMessages | rtcm_parser.py:216-255 | the loop (find 0xD3, drop noise, wait for a whole frame, validate, advance) leaves Extract's leftover and appends its valid frames |
| Rtcm.RtcmMessageBuffer.GetMessages | rtcm_parser.py:257-266 | returns the stored frames and clears the list |
| Rtcm.RtcmMessageBuffer.HasMessages | rtcm_parser.py:268-270 | true exactly when a frame is stored |
| Rtcm.StoredChunked | rtcm_parser.py:206-255 | the frames stored by two add_data calls equal those stored by one call with the joined bytes |
| Rtcm.TwoReads | rtcm_parser.py:206-266 | two add_data calls and one get lead to the same valid frames as one add_data of the joined data |
| GpsSerial.CalcChecksum | gps_serial.py:117-122 | the XOR loop over the characters gives Checksum, two upper-case hex digits |
| GpsSerial.ChecksumAscii | gps_serial.py:117-122 | for ASCII text the checksum is two upper-case hex digits that read back as the XOR of the codes |
| GpsSerial.CodesXorAscii | gps_serial.py:117-122 | the XOR of ASCII codes stays below 128 |
| GpsSerial.CommandFields | gps_serial.py:124-128 | a sent command is '$', the body, '*', the checksum and CR LF, and can be taken apart again |
| GpsSerial.BaseModeCommand | gps_serial.py:86-87 | the PAIR065 base-mode command with its checksum |
| GpsSerial.RtcmOutputCommand | gps_serial.py:109-113 | the loop body builds the checksummed PAIR050,type,1 command |
| GpsSerial.RtcmOutputCommandsEach | gps_serial.py:96-115 | one PAIR050 command per requested type, in order |
| GpsSerial.FixTypeTable | gps_serial.py:226-233 | known fix codes get their names; any other code is "Unknown (code)" |
| GpsSerial.GgaUpdate | gps_serial.py:211-249 | a sentence that is not a parsable GGA sentence leaves the status unchanged |
| GpsSerial.GgaRefreshesOnlyOnFullParse | gps_serial.py:235-242 | last_update moves to now exactly when quality, satellites and HDOP all parse |
| GpsSerial.GgaWriteOrder | gps_serial.py:235-242 | the fields are written in order until the first field that does not parse |
| Text.ParseIntRoundTrip | gps_serial.py:236-238 | int() reads back every integer written in decimal |
| Text.ParseIntUnderscore | gps_serial.py:236 | int() reads "1_0" as 10: single underscores between digits are accepted |
| Text.ParseIntSignedUnderscores | gps_serial.py:236 | int() reads "-2_5_0" as -250 |
| Text.ParseIntDoubledUnderscore | gps_serial.py:236 | int() refuses "1__0" |
| Text.ParseIntLeadingUnderscore | gps_serial.py:236 | int() refuses "_1" |
| Text.ParseIntTrailingUnderscore | gps_serial.py:236 | int() refuses "1_" |
| Text.FloatUnderscores | gps_serial.py:239 | float() accepts "1_0.5": its digit parts take the same underscores as int() |
| GpsSerial.StatusAt | gps_serial.py:251-262 | the report is the status plus "stale" exactly when there was no update or it is older than 5 s |
| GpsSerial.StaleStaysStale | gps_serial.py:251-262 | a stale status stays stale as time goes on |
| GpsSerial.FreshAfterUpdate | gps_serial.py:242-262 | right after a full GGA update the status is fresh for 5 s |
| GpsSerial.StepKeepsShape | gps_serial.py:160-188 | each byte keeps both buffers in shape and hands on only well-formed pieces |
| GpsSerial.SplitKeepsShape | gps_serial.py:160-188 | over any bytes the splitter hands on only frames starting with 0xD3 (complete or cut short by the next 0xD3) and lines from '$' to the first LF |
| GpsSerial.SplitChunked | gps_serial.py:149-197 | splitting a + b equals splitting a then b from the state a left |
| GpsSerial.FrameHandedOn | gps_serial.py:166-174 | a complete frame without inner 0xD3 is handed on whole, and the RTCM buffer empties |
| GpsSerial.InnerPreambleSplitsFrame | gps_serial.py:162-165 | a 0xD3 inside a frame cuts it short and starts a new buffer |
| GpsSerial.StartedFrameBuffered | gps_serial.py:166-174 | an incomplete frame stays buffered and nothing is handed on |
| GpsSerial.NoiseDropped | gps_serial.py:175-188 | bytes outside any frame or sentence vanish |
| GpsSerial.SentenceHandedOn | gps_serial.py:175-188 | '$', a plain body and LF are handed on as one line |
| GpsSerial.LineBuffered | gps_serial.py:175-188 | a started line without LF stays buffered |
| GpsSerial.AsciiDecodeKeepsAscii | gps_serial.py:184 | decoding ASCII bytes gives the same characters, one for one |
| GpsSerial.HandleAllConcat | gps_serial.py:160-209 | handling pieces in two batches equals handling them together |
| GpsSerial.HandleAllForwards | gps_serial.py:198-209 | only frames of at least 6 bytes starting with 0xD3 reach the RTCM callback |
| GpsSerial.RunReadsShape | gps_serial.py:149-197 | across reads the buffers stay in shape and forwarded frames stay well-formed |
| GpsSerial.Lc29hSerial.constructor | gps_serial.py:19-66 | the driver starts with the port open or not, no callbacks, nothing sent and the initial status |
| GpsSerial.Lc29hSerial.SendCommand | gps_serial.py:124-128 | the command is logged exactly when the port is open; nothing else changes |
| GpsSerial.Lc29hSerial.ConfigureBaseMode | gps_serial.py:75-94 | sends PAIR065 then the PAIR062 position command |
| GpsSerial.Lc29hSerial.EnableRtcmOutput | gps_serial.py:96-115 | sends one PAIR050 per type, for the default list when none is given |
| GpsSerial.Lc29hSerial.Disconnect | gps_serial.py:68-73 | the port is closed; status and logs are kept |
| GpsSerial.Lc29hSerial.SetRtcmCallback | gps_serial.py:264-266 | installs the RTCM callback and changes nothing else |
| GpsSerial.Lc29hSerial.SetNmeaCallback | gps_serial.py:268-270 | installs the NMEA callback and changes nothing else |
| GpsSerial.Lc29hSerial.ProcessRtcm | gps_serial.py:198-209 | a frame of at least 6 bytes with 0xD3 goes to the callback, if one is set |
| GpsSerial.Lc29hSerial.WriteGgaFields | gps_serial.py:218-242 | the status after the guarded int/float writes of fields 6-8 |
| GpsSerial.Lc29hSerial.ProcessNmea | gps_serial.py:211-249 | the status becomes GgaUpdate of the sentence; a '$' sentence reaches the callback, if set |
| GpsSerial.Lc29hSerial.GetGpsStatus | gps_serial.py:251-262 | the status plus the 5-second staleness flag |
| GpsSerial.Lc29hSerial.FeedByte | gps_serial.py:160-188 | one loop iteration: the buffers follow Step and its pieces are handled |
| GpsSerial.Lc29hSerial.ReadChunk | gps_serial.py:155-188 | one read: the buffers follow Split and all its pieces are handled in order |
| GpsSerial.Lc29hSerial.ReadLoop | gps_serial.py:149-197 | the callbacks and status end as RunReads over all chunks |
| Base64.DecodeEncode | ntrip_server.py:311-312 | strict Base64 decoding inverts encoding |
| Base64.AlphabetBijection | ntrip_server.py:312 | the 64-character alphabet and its decoder are inverse |
| Base64.DecodeSize | ntrip_server.py:312 | decodable text has a length multiple of 4 and decodes to about three quarters of it |
| Base64.EncodeChars | test_ntrip_client.py:52 | encoding uses only alphabet characters and '=' |
| Utf8.DecodeEncode | ntrip_server.py:312 | strict UTF-8 decoding inverts encoding |
| Utf8.ScalarRoundTrip | ntrip_server.py:312 | each encoded scalar decodes back with its length |
| Ntrip.Client.constructor | ntrip_server.py:21-27 | a new client has its address, mountpoint and time, and 0 bytes sent |
| Ntrip.Client.SendData | ntrip_server.py:29-37 | the result is the send's success, and bytes_sent grows by the length only on success |
| Ntrip.Client.Close | ntrip_server.py:39-44 | the connection is closed; bytes_sent is kept |
| Ntrip.Server.constructor | ntrip_server.py:50-67 | no clients, no mountpoints, no authentication, not running |
| Ntrip.Server.AddMountpoint | ntrip_server.py:69-106 | sets name's record (identifier or name, fixed fields, "B"/"N" by the auth setting at that moment), keeping insertion order |
| Ntrip.Server.SetAuthentication | ntrip_server.py:109-119 | authentication becomes required and username maps to password |
| Ntrip.Server.Start | ntrip_server.py:121-144 | starts exactly when the socket binds |
| Ntrip.Server.Stop | ntrip_server.py:146-163 | every client is closed and dropped; the server stops |
| Ntrip.Server.HandleClient | ntrip_server.py:187-264 | the reply is the routed decision's text; only a registration keeps the connection and appends a new client for that mountpoint |
| Ntrip.Server.BroadcastRtcm | ntrip_server.py:321-348 | empty data changes nothing; otherwise each targeted client whose send succeeds counts the bytes, and exactly the failed ones are closed and removed |
| Ntrip.Server.SendAll | ntrip_server.py:334-342 | the send loop credits successful targeted sends and collects exactly the failures |
| Ntrip.RemoveClients | ntrip_server.py:344-348 | the removal loop leaves the list without the failed clients and closes exactly those |
| Ntrip.Server.GetStats | ntrip_server.py:350-364 | one entry per client with address "ip:port", mountpoint, time and bytes sent |
| Ntrip.ResponseStatusRoundTrip | ntrip_server.py:293-303 | the status code reads back from the response's first line |
| Ntrip.BasicCredentials | ntrip_server.py:305-319 | a parsed header starts with "Basic " and its Base64 payload decodes to user:password with no ':' in the user |
| Ntrip.BasicRoundTrip | ntrip_server.py:305-319 | the header for (user, password) parses back to them |
| Ntrip.VerifyAuthRoundTrip | ntrip_server.py:305-319 | the header for (user, password) is accepted exactly when the stored password for user matches |
| Ntrip.VerifyAuthNeedsBasic | ntrip_server.py:308-309 | a header without "Basic " is refused |
| Ntrip.AuthorizationAbsent | ntrip_server.py:231-235 | no header is found exactly when no line starts with "Authorization:" |
| Ntrip.AuthorizationFirst | ntrip_server.py:231-235 | a header found is the stripped value of the first "Authorization:" line |
| Ntrip.RouteRefusesShortRequests | ntrip_server.py:194-208 | an empty request is dropped without reply, and a first line of fewer than 3 words gets 400 |
| Ntrip.RouteListsSourcesOnlyForRoot | ntrip_server.py:213-217 | the sourcetable is sent exactly for GET / |
| Ntrip.DecideRegisters | ntrip_server.py:219-256 | registration exactly for GET /name with name served and, when required, authorized |
| Ntrip.RouteRegisters | ntrip_server.py:187-256 | registration exactly for a non-empty request whose first line is GET /name, name served and, when required, Basic-authorized |
| Ntrip.StrLineFields | ntrip_server.py:277-283 | an STR line has 18 ';'-separated fields, which split back |
| Ntrip.SourcetableLayout | ntrip_server.py:266-285 | header lines, the CAS line, one STR line per mountpoint in insertion order, then ENDSOURCETABLE |
| Ntrip.SourcetableSplit | ntrip_server.py:266-285 | the table splits on CR LF back into exactly its lines |
| Ntrip.SourcetableEnd | ntrip_server.py:285 | the table ends with ENDSOURCETABLE CR LF |
| Ntrip.FailuresMembership | ntrip_server.py:335-342 | a client is collected as failed exactly when it was targeted and its send failed |
| Ntrip.SurvivorsMembership | ntrip_server.py:335-348 | a client survives exactly when it was not targeted or its send succeeded |
| Ntrip.FailuresLeaveSurvivors | ntrip_server.py:344-348 | removing the failed clients one by one leaves the survivors, in their order |
| Ntrip.SurvivorsWithoutFailures | ntrip_server.py:335-348 | when no send fails, the client list is unchanged |
| NtripTestClient.ParseRtcm3 | test_ntrip_client.py:82-116 | the scanning loop returns Scan of the data |
| NtripTestClient.ScanLayout | test_ntrip_client.py:82-116 | every message found has 0xD3, its declared length, payload ≥ 2, the header's type, and sits in the data in order without overlap |
| NtripTestClient.ScanIgnoresNoise | test_ntrip_client.py:90-94 | leading bytes other than 0xD3 do not change the result |
| NtripTestClient.ScanFrameThen | test_ntrip_client.py:101-114 | a complete frame with a payload of at least 2 bytes is reported with its type, and scanning continues after it |
| NtripTestClient.ScanSkipsShortFrame | test_ntrip_client.py:109-114 | a complete frame with a payload shorter than 2 bytes is skipped whole |
| NtripTestClient.ScanFrames | test_ntrip_client.py:82-116 | concatenated frames are reported one for one |
| NtripTestClient.ScanEncodedFrame | test_ntrip_client.py:82-116 | a frame built by the caster's RTCM encoding is found with its type |
| NtripTestClient.DescriptionKnownExactly | test_ntrip_client.py:229-248 | "Unknown" exactly for types outside the client's table |
| NtripTestClient.ConnectRequest | test_ntrip_client.py:43-59 | a request that can be sent is ASCII (otherwise encoding fails and connect returns False) |
| NtripTestClient.RequestTextEnd | test_ntrip_client.py:55-56 | the request ends with "Connection: close" and a blank line |
| NtripTestClient.RequestAuthorization | test_ntrip_client.py:48-53 | the caster finds an Authorization header exactly when username and password are both non-empty, and it is their Basic header |
| NtripTestClient.RequestLineWords | test_ntrip_client.py:43 | the request line splits into GET, /mountpoint and HTTP/1.1 |
| NtripTestClient.ClientRoute | test_ntrip_client.py:43-56 | the caster routes the client's request by its line and whether its credentials verify |
| NtripTestClient.DecideRequestLine | ntrip_server.py:213-256 | for the client's request line: sourcetable for an empty mountpoint, else 404, 401 or registration |
| NtripTestClient.ClientIsRegistered | test_ntrip_client.py:43-56 | a served mountpoint with matching credentials (when required) is registered |
| NtripTestClient.ClientWithoutCredentialsIsRefused | test_ntrip_client.py:48-53 | without credentials a caster requiring authentication answers 401 |
| NtripTestClient.ClientMountpointNotServed | test_ntrip_client.py:43-56 | an unserved mountpoint gets 404; an empty one gets the sourcetable |
| NtripTestClient.AcceptIsConnected | test_ntrip_client.py:64 | the caster's 200 reply passes the client's success test |
| NtripTestClient.RefusalIsNotConnected | test_ntrip_client.py:64 | a reply whose message and headers have no 'K' fails the test |
| NtripTestClient.UnauthorizedIsNotConnected | test_ntrip_client.py:64 | the 401 reply fails the test |
| NtripTestClient.NotFoundIsNotConnected | test_ntrip_client.py:64 | the 404 reply fails the test |
| NtripTestClient.BadRequestIsNotConnected | test_ntrip_client.py:64 | the 400 reply fails the test |
| NtripTestClient.SourcetableIsConnected | test_ntrip_client.py:64 | the sourcetable reply also passes the test, since it contains "200 OK" |
| NtripTestClient.CountTypesCounts | test_ntrip_client.py:164-170 | each type's count grows by its occurrences |
| NtripTestClient.CountTypesTotal | test_ntrip_client.py:164-170 | the counts grow in total by the number of messages |
| NtripTestClient.CutThrough | test_ntrip_client.py:173-175 | the buffer loses everything up to and including the first occurrence of the frame, if any |
| NtripTestClient.DeleteFront | test_ntrip_client.py:173-175 | a frame at the front is cut off exactly |
| NtripTestClient.ConsumeSuffix | test_ntrip_client.py:164-175 | the trimmed buffer is a suffix of the buffer |
| NtripTestClient.Client.constructor | test_ntrip_client.py:18-32 | unconnected, zero counters, empty type map |
| NtripTestClient.Client.Connect | test_ntrip_client.py:34-80 | connected exactly when the request can be sent and the reply has "200 OK" |
| NtripTestClient.Client.Disconnect | test_ntrip_client.py:250-255 | not connected; counters kept |
| NtripTestClient.Client.ReceiveChunk | test_ntrip_client.py:158-175 | bytes grow by the read, messages by those scanned, counts by their types, and the buffer is trimmed through each message |
| NtripTestClient.FeedKeepsTotal | test_ntrip_client.py:158-170 | feeding chunks keeps the message count equal to the sum of the per-type counts |
| NtripTestClient.Client.ReceiveLoop | test_ntrip_client.py:118-192 | nothing when not connected; otherwise the counters end as feeding the chunks taken says, every byte read is counted, each chunk taken was non-empty and read while the limit was not reached, and the loop stops only at an empty read or once `max_messages` (when neither None nor 0; a negative one is reached at once) is reached |
| BaseStation.HandleAllCounts | base_station.py:216-243 | with a caster, the counters grow by exactly the number and total length of the frames that validate |
| BaseStation.HandleAllWithoutServer | base_station.py:226 | without a caster nothing is counted |
| BaseStation.HandleAllMonotone | base_station.py:226-231 | the counters never decrease and the start time is untouched |
| BaseStation.NewReceiver | base_station.py:110-139 | when the port opens: PAIR065, PAIR062, one PAIR050 per type, then the callback |
| BaseStation.NewCaster | base_station.py:144-174 | authentication (if enabled) is set before the one mountpoint is added |
| BaseStation.Station.constructor | base_station.py:25-43 | no receiver, no caster, not running, zero statistics |
| BaseStation.Station.HandleRtcmData | base_station.py:216-243 | a validated frame is broadcast and counted when a caster exists: the caster keeps the survivors, adds the frame's length to each successful client, closes exactly the clients whose send failed, and keeps its running flag, mountpoints and credentials; anything else changes nothing |
| BaseStation.Station.Start | base_station.py:102-200 | succeeds exactly when the port opens and the socket binds; the receiver is disconnected if the server fails; the mountpoint's flag is "B" exactly when authentication is enabled; the start time is set only on success |
| BaseStation.Station.Stop | base_station.py:202-214 | not running; every client of the caster is closed and dropped while its mountpoints and credentials stay; the receiver is disconnected with its command log and status kept |

## Left out

- Serial and socket I/O, threads, locks, `start_reading`/`stop_reading` and the accept loop (`_accept_clients`) are left out. Whether a port opens, a socket binds or a send succeeds is an input; received bytes are arguments.
- The clock (`time.time()`, `datetime.now()`) is an integer parameter in milliseconds, so the 5-second staleness limit is 5000. `connected_at` is that integer, not an ISO string.
- Floating point: latitude, longitude and altitude are modelled as the text that goes into PAIR062 and the STR line. The `:.8f`, `:.3f` and `:.2f` formatting is not modelled. HDOP is kept as its text form. The 0.0001 m scaling of the 1005 coordinates is not applied; the decoder returns the raw signed integers.
- `Text.ParseInt` and `Text.IsFloatText` accept ASCII digits only. Python's `int()` and `float()` also accept other Unicode decimal digits; the NMEA text they read is ASCII-decoded first, so such digits never reach them.
- `Base64.Decode`: `base64.b64decode` without `validate=True` discards characters outside the alphabet. The model decodes strictly, so a header with such characters is refused where Python might accept it.
- `Utf8.Decode` is strict. `recv(...).decode('utf-8', errors='ignore')` on the request is not modelled; the request is text.
- Logging, the 100-message debug line, and `_print_stats`/`_print_final_stats` are not modelled. `receive_loop`'s socket timeouts, duration limit and `KeyboardInterrupt` are not modelled either; `ReceiveLoop` ends when a read is empty or at the message limit.
- Exception paths are not modelled except where they decide the visible outcome: the failed start and the non-ASCII request.
- YAML configuration loading, the web interface, signal handling, `run()` and `main()` are left out. The repository's other programs (ECEF conversion, diagnostics, accuracy test) are not part of this model.
- `NTRIPClient.username` is never written by the caster, so it is not a field.
- `Ntrip.Server.HandleClient`: the returned reply is the text that would be sent; whether sending it fails is not modelled. A request containing "Authorization:" is parsed only when authentication is required, as in the source.
- `NtripTestClient.SourcetableIsConnected` records a behaviour of the test client: the sourcetable reply ("SOURCETABLE 200 OK") passes its "200 OK" success test.

## Findings

| source | as written | input that shows it | evidently intended | confidence | as-written member | corrected member |
|---|---|---|---|---|---|---|
| rtcm_parser.py:172-182 | Y is read from bits 72..110 and Z from bits 110..148, directly after X | a 19-byte 1005 payload whose bit 72 (the DF142 oscillator indicator, top bit of byte 9) is 1: Y comes out negative whatever the coordinate | the layout of RTCM 10403.3 message 1005 that the code cites: DF142 and DF001 at bits 72-73, Y (DF026) at 74..112, DF364 at 112-113, Z (DF027) at 114..152, which is why 19 bytes (152 bits) are required | high; not executed | Rtcm.Station1005IndicatorChangesY | Rtcm.ParseMessage1005Standard |
