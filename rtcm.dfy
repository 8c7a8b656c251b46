/**
 * The RTCM 3 transport frame (RTCM 10403.3, section 4): preamble 0xD3, six
 * reserved bits and a 10-bit payload length, the payload, and a 24-bit
 * CRC-24Q over everything before it. Validation, the CRC, the 1005 station
 * record and the in-place reassembly buffer of rtcm_parser.py.
 *
 * Bitwise expressions of the source are written arithmetically on bytes:
 * `b & 0x03` is `b % 4`, `x << k` is `x * 2^k`, `b >> 4` is `b / 16`,
 * and `|` of two values with disjoint bits is `+`.
 */
module Rtcm {
  import opened Bytes
  import opened Wrappers
  import Text

  // ---- header fields ----

  /** ((b1 & 0x03) << 8) | b2: the 10-bit payload length; the upper six bits of b1 are not looked at. */
  function DeclaredLength(b1: Byte, b2: Byte): (n: nat)
    ensures n < 1024
  {
    (b1 % 4) * 256 + b2
  }

  /** The length's upper two bits are the low two bits of b1, its lower eight bits are b2. */
  lemma DeclaredLengthBits(b1: Byte, b2: Byte)
    ensures DeclaredLength(b1, b2) / 256 == b1 % 4 && DeclaredLength(b1, b2) % 256 == b2
    ensures forall r: Byte :: DeclaredLength(r, b2) == DeclaredLength(b1, b2) <==> r % 4 == b1 % 4
  {
  }

  /** (b3 << 4) | (b4 >> 4): the 12-bit message number at the head of the payload. */
  function MessageType(b3: Byte, b4: Byte): (t: nat)
    ensures t < 4096
  {
    b3 * 16 + b4 / 16
  }

  /** The type number's upper eight bits are b3, its lower four the high nibble of b4. */
  lemma MessageTypeBits(b3: Byte, b4: Byte)
    ensures MessageType(b3, b4) / 16 == b3 && MessageType(b3, b4) % 16 == b4 / 16
  {
  }

  // ---- CRC-24Q ----

  /** Generator polynomial of CRC-24Q, with the x^24 term. */
  const Crc24qPoly: nat := 0x1864CFB

  /** `crc & 0x1000000`: bit 24 of the register. */
  predicate Bit24(c: nat) {
    (c / 0x100_0000) % 2 == 1
  }

  /** One bit of the shift register: shift left, and reduce when bit 24 comes out set. */
  function CrcBitStep(crc: nat): nat {
    var c := crc * 2;
    if Bit24(c) then Xor(c, Crc24qPoly) else c
  }

  /** k bit steps. */
  function CrcBitSteps(crc: nat, k: nat): nat {
    if k == 0 then crc else CrcBitStep(CrcBitSteps(crc, k - 1))
  }

  /** One byte enters the register at bits 16..23 and is shifted through in eight steps. */
  function CrcByteStep(crc: nat, b: Byte): nat {
    CrcBitSteps(Xor(crc, (b as int) * 0x1_0000), 8)
  }

  /** The register after all of data, starting from 0. */
  function CrcRegister(data: seq<Byte>): nat {
    if data == [] then 0 else CrcByteStep(CrcRegister(data[..|data| - 1]), data[|data| - 1])
  }

  /** CRC-24Q of data: initial value 0, no reflection, no final XOR, masked to 24 bits. */
  function Crc24q(data: seq<Byte>): (crc: nat)
    ensures crc < 0x100_0000
  {
    CrcRegister(data) % 0x100_0000
  }

  lemma Pow2Crc()
    ensures Pow2(8) == 0x100 && Pow2(16) == 0x1_0000 && Pow2(24) == 0x100_0000
  {
    assert Pow2(8) == 0x100;
    Pow2Add(8, 8);
    Pow2Add(16, 8);
  }

  /** A bit step keeps a 24-bit register within 24 bits: the reduction clears the bit shifted out. */
  lemma CrcBitStepBound(crc: nat)
    requires crc < 0x100_0000
    ensures CrcBitStep(crc) < 0x100_0000
  {
    var c := crc * 2;
    if Bit24(c) {
      Pow2Crc();
      XorTopBit(c, Crc24qPoly, 24);
      XorBound(c - 0x100_0000, Crc24qPoly - 0x100_0000, 24);
    }
  }

  lemma {:induction false} CrcBitStepsBound(crc: nat, k: nat)
    requires crc < 0x100_0000
    ensures CrcBitSteps(crc, k) < 0x100_0000
  {
    if k > 0 {
      CrcBitStepsBound(crc, k - 1);
      CrcBitStepBound(CrcBitSteps(crc, k - 1));
    }
  }

  /**
   * The register never holds more than 24 bits between bytes, so the final
   * mask changes nothing: the value returned is the register itself.
   */
  lemma CrcRegisterFits(data: seq<Byte>)
    ensures CrcRegister(data) < 0x100_0000
    ensures Crc24q(data) == CrcRegister(data)
  {
    CrcRegisterBound(data);
    MaskSmall(CrcRegister(data));
  }

  lemma MaskSmall(c: nat)
    requires c < 0x100_0000
    ensures c % 0x100_0000 == c
  {
  }

  lemma {:induction false} CrcRegisterBound(data: seq<Byte>)
    ensures CrcRegister(data) < 0x100_0000
  {
    if data != [] {
      var init, last := data[..|data| - 1], data[|data| - 1];
      CrcRegisterBound(init);
      CrcByteStepBound(CrcRegister(init), last);
      assert CrcRegister(data) == CrcByteStep(CrcRegister(init), last);
    }
  }

  /** A byte step keeps a 24-bit register within 24 bits. */
  lemma CrcByteStepBound(crc: nat, b: Byte)
    requires crc < 0x100_0000
    ensures CrcByteStep(crc, b) < 0x100_0000
  {
    Pow2Crc();
    XorBound(crc, (b as int) * 0x1_0000, 24);
    CrcBitStepsBound(Xor(crc, (b as int) * 0x1_0000), 8);
  }

  /** _calc_crc24q: the nested loop over bytes and bits. */
  method CalcCrc24q(data: seq<Byte>) returns (crc: nat)
    ensures crc == Crc24q(data)
  {
    crc := 0;
    for i := 0 to |data|
      invariant crc == CrcRegister(data[..i])
    {
      assert data[..i + 1][..i] == data[..i];
      crc := Xor(crc, (data[i] as int) * 0x1_0000);
      ghost var start := crc;
      for k := 0 to 8
        invariant crc == CrcBitSteps(start, k)
      {
        crc := crc * 2;
        if (crc / 0x100_0000) % 2 == 1 {
          crc := Xor(crc, 0x1864CFB);
        }
      }
    }
    assert data[..|data|] == data;
    crc := crc % 0x100_0000;
  }

  /** _verify_crc24q: the last three bytes, big-endian, equal the CRC of everything before them. */
  predicate VerifyCrc24q(data: seq<Byte>) {
    |data| >= 6
    && Uint24(data[|data| - 3], data[|data| - 2], data[|data| - 1]) == Crc24q(data[..|data| - 3])
  }

  // ---- validate_message ----

  /** The (is_valid, message_type, message_length) triple. */
  datatype Validation = Validation(valid: bool, msgType: nat, msgLen: nat)

  /** A complete, correctly checksummed frame as validate_message accepts it. */
  predicate IsValidFrame(data: seq<Byte>) {
    && |data| >= 6
    && data[0] == Preamble
    && |data| == DeclaredLength(data[1], data[2]) + 6
    && VerifyCrc24q(data)
  }

  function ValidateMessage(data: seq<Byte>): (r: Validation)
    ensures |data| < 6 || data[0] != Preamble ==> r == Validation(false, 0, 0)
    ensures |data| >= 6 && data[0] == Preamble ==>
      r.msgLen == DeclaredLength(data[1], data[2]) && r.msgType == MessageType(data[3], data[4])
    ensures r.msgLen < 1024 && r.msgType < 4096
  {
    if |data| < 6 then Validation(false, 0, 0)
    else if data[0] != Preamble then Validation(false, 0, 0)
    else
      var msgLen := DeclaredLength(data[1], data[2]);
      var msgType := if |data| >= 5 then MessageType(data[3], data[4]) else 0;
      if |data| != msgLen + 6 then Validation(false, msgType, msgLen)
      else if !VerifyCrc24q(data) then Validation(false, msgType, msgLen)
      else Validation(true, msgType, msgLen)
  }

  /** validate_message accepts exactly the complete frames with a matching CRC. */
  lemma ValidateMessageAccepts(data: seq<Byte>)
    ensures ValidateMessage(data).valid <==> IsValidFrame(data)
  {
  }

  /**
   * The frame a transmitter builds for payload: preamble, the reserved bits
   * and the length, the payload, and the CRC-24Q big-endian.
   */
  function EncodeFrame(reserved: nat, payload: seq<Byte>): (frame: seq<Byte>)
    requires reserved < 64 && |payload| < 1024
    ensures |frame| == |payload| + 6 && frame[3..|frame| - 3] == payload
  {
    var body := [Preamble, reserved * 4 + |payload| / 256, |payload| % 256] + payload;
    body + Uint24Bytes(Crc24q(body))
  }

  /** The length bytes a transmitter writes read back as the length, whatever the reserved bits. */
  lemma LengthBytes(reserved: nat, n: nat)
    requires reserved < 64 && n < 1024
    ensures reserved * 4 + n / 256 < 256
    ensures DeclaredLength(reserved * 4 + n / 256, n % 256) == n
  {
    var hi := reserved * 4 + n / 256;
    assert hi % 4 == n / 256;
  }

  /** Every encoded frame is accepted, whatever its reserved bits, with its payload length. */
  lemma EncodedFrameIsValid(reserved: nat, payload: seq<Byte>)
    requires reserved < 64 && |payload| < 1024
    ensures ValidateMessage(EncodeFrame(reserved, payload)).valid
    ensures ValidateMessage(EncodeFrame(reserved, payload)).msgLen == |payload|
  {
    LengthBytes(reserved, |payload|);
    var body := [Preamble, reserved * 4 + |payload| / 256, |payload| % 256] + payload;
    var tail := Uint24Bytes(Crc24q(body));
    var frame := EncodeFrame(reserved, payload);
    assert frame == body + tail;
    assert frame[..|frame| - 3] == body;
    assert frame[|frame| - 3..] == tail;
    assert frame[0] == Preamble && frame[1] == body[1] && frame[2] == body[2];
    assert VerifyCrc24q(frame);
    ValidateMessageAccepts(frame);
  }

  /** Every accepted frame is the encoding of its own payload with its own reserved bits. */
  lemma ValidFrameIsEncoded(data: seq<Byte>)
    requires ValidateMessage(data).valid
    ensures data == EncodeFrame(data[1] / 4, data[3..|data| - 3])
  {
    ValidateMessageAccepts(data);
    var body := data[..|data| - 3];
    FrameHeader(data);
    FrameTail(data);
    assert data == body + data[|data| - 3..];
  }

  /** The first three bytes of an accepted frame are the ones EncodeFrame writes for its payload. */
  lemma FrameHeader(data: seq<Byte>)
    requires IsValidFrame(data)
    ensures var payload := data[3..|data| - 3];
      data[..|data| - 3] == [Preamble, (data[1] / 4) * 4 + |payload| / 256, |payload| % 256] + payload
  {
    var payload := data[3..|data| - 3];
    DeclaredLengthBits(data[1], data[2]);
    assert |payload| == DeclaredLength(data[1], data[2]);
    assert (data[1] / 4) * 4 + |payload| / 256 == data[1];
  }

  /** The last three bytes of an accepted frame are the CRC of the rest, big-endian. */
  lemma FrameTail(data: seq<Byte>)
    requires IsValidFrame(data)
    ensures data[|data| - 3..] == Uint24Bytes(Crc24q(data[..|data| - 3]))
  {
    var a, b, c := data[|data| - 3], data[|data| - 2], data[|data| - 1];
    Uint24RoundTrip(a, b, c);
    assert data[|data| - 3..] == [a, b, c];
  }

  // ---- the 1005 station record ----

  /** Every element is a binary digit. */
  predicate AllBits(d: seq<nat>) {
    forall i :: 0 <= i < |d| ==> d[i] < 2
  }

  /** f'{b:0nb}' for b < 2^n: the n binary digits of b, most significant first. */
  function BinDigits(b: nat, n: nat): (d: seq<nat>)
    ensures |d| == n && AllBits(d)
  {
    if n == 0 then [] else BinDigits(b / 2, n - 1) + [b % 2]
  }

  /** ''.join(f'{b:08b}' for b in data): the payload as a string of bits. */
  function BitString(data: seq<Byte>): (bits: seq<nat>)
    ensures |bits| == 8 * |data| && AllBits(bits)
  {
    if data == [] then [] else BinDigits(data[0], 8) + BitString(data[1..])
  }

  /** int(bits, 2): a digit string read as an unsigned big-endian number. */
  function BinValue(bits: seq<nat>): nat {
    if bits == [] then 0 else BinValue(bits[..|bits| - 1]) * 2 + bits[|bits| - 1]
  }

  lemma {:induction false} BinValueBound(bits: seq<nat>)
    requires AllBits(bits)
    ensures BinValue(bits) < Pow2(|bits|)
  {
    if bits != [] {
      BinValueBound(bits[..|bits| - 1]);
    }
  }

  /** Formatting a number below 2^n with n digits and reading it back gives the number. */
  lemma {:induction false} BinDigitsValue(b: nat, n: nat)
    requires b < Pow2(n)
    ensures BinValue(BinDigits(b, n)) == b
  {
    if n > 0 {
      var d := BinDigits(b, n);
      assert d[..n - 1] == BinDigits(b / 2, n - 1);
      BinDigitsValue(b / 2, n - 1);
    }
  }

  /** The last k of n digits are the k-digit form of the same number. */
  lemma {:induction false} BinDigitsSuffix(b: nat, n: nat, k: nat)
    requires k <= n
    ensures BinDigits(b, n)[n - k..] == BinDigits(b, k)
  {
    if k > 0 {
      BinDigitsSuffix(b / 2, n - 1, k - 1);
      assert BinDigits(b, n)[n - k..] == BinDigits(b / 2, n - 1)[n - k..] + [b % 2];
    }
  }

  /** Digits of a concatenation: the first part shifted over the second. */
  lemma {:induction false} BinValueAppend(s: seq<nat>, t: seq<nat>)
    ensures BinValue(s + t) == BinValue(s) * Pow2(|t|) + BinValue(t)
  {
    if t == [] {
      assert s + t == s;
    } else {
      var u := t[..|t| - 1];
      assert (s + t)[..|s + t| - 1] == s + u;
      assert (s + t)[|s + t| - 1] == t[|t| - 1];
      BinValueAppend(s, u);
      var x, p := BinValue(s), Pow2(|u|);
      assert BinValue(t) == BinValue(u) * 2 + t[|t| - 1];
      assert BinValue(s + t) == (x * p + BinValue(u)) * 2 + t[|t| - 1];
      assert x * Pow2(|t|) == (x * p) * 2;
    }
  }

  /** Bits 8k..8k+8 of the bit string are the eight digits of byte k. */
  lemma {:induction false} BitStringByte(data: seq<Byte>, k: nat)
    requires k < |data|
    ensures BitString(data)[8 * k..8 * k + 8] == BinDigits(data[k], 8)
  {
    if k > 0 {
      BitStringByte(data[1..], k - 1);
      assert BitString(data)[8 * k..8 * k + 8] == BitString(data[1..])[8 * (k - 1)..8 * (k - 1) + 8];
    } else {
      assert BitString(data)[..8] == BinDigits(data[0], 8);
    }
  }

  /** b >> m, one halving at a time. */
  function Shr(b: nat, m: nat): nat {
    if m == 0 then b else Shr(b / 2, m - 1)
  }

  /** The first k of n digits are the k-digit form of the number shifted right by n - k. */
  lemma {:induction false} BinDigitsPrefix(b: nat, n: nat, k: nat)
    requires k <= n
    ensures BinDigits(b, n)[..k] == BinDigits(Shr(b, n - k), k)
  {
    if k < n {
      BinDigitsPrefix(b / 2, n - 1, k);
      assert BinDigits(b, n)[..k] == BinDigits(b / 2, n - 1)[..k];
    }
  }

  lemma HighBits(b: Byte)
    ensures BinValue(BinDigits(b, 8)[..4]) == b / 16
    ensures BinValue(BinDigits(b, 8)[..6]) == b / 4
  {
    BinDigitsPrefix(b, 8, 4);
    BinDigitsPrefix(b, 8, 6);
    assert Shr(b, 4) == b / 16 by {
      assert Shr(b, 4) == Shr(b / 2, 3) == Shr(b / 2 / 2, 2);
      assert Shr(b / 2 / 2, 2) == Shr(b / 2 / 2 / 2, 1) == b / 2 / 2 / 2 / 2;
    }
    assert Shr(b, 2) == b / 4 by {
      assert Shr(b, 2) == Shr(b / 2, 1) == b / 2 / 2;
    }
    assert Pow2(4) == 16 && Pow2(6) == 64;
    BinDigitsValue(b / 16, 4);
    BinDigitsValue(b / 4, 6);
  }

  /** The four low digits, as a sum of weighted bits, are b % 16. */
  lemma LowDigits(b: nat)
    ensures ((b / 2 / 2 / 2 % 2 * 2 + b / 2 / 2 % 2) * 2 + b / 2 % 2) * 2 + b % 2 == b % 16
  {
    var q1 := b / 2;
    var q2 := q1 / 2;
    var q3 := q2 / 2;
    var q4 := q3 / 2;
    assert b == 16 * q4 + (((q3 % 2 * 2 + q2 % 2) * 2 + q1 % 2) * 2 + b % 2);
  }

  lemma LowBits(b: Byte)
    ensures BinValue(BinDigits(b, 8)[4..]) == b % 16
  {
    BinDigitsSuffix(b, 8, 4);
    var d := BinDigits(b, 4);
    assert BinDigits(b / 2 / 2, 2) == [b / 2 / 2 / 2 % 2, b / 2 / 2 % 2];
    assert d == BinDigits(b / 2 / 2, 2) + [b / 2 % 2] + [b % 2];
    assert d == [b / 2 / 2 / 2 % 2, b / 2 / 2 % 2, b / 2 % 2, b % 2];
    assert BinValue(d) == ((d[0] * 2 + d[1]) * 2 + d[2]) * 2 + d[3] by {
      assert d[..1][..0] == [] && d[..2][..1] == d[..1] && d[..3][..2] == d[..2] && d[..4][..3] == d[..3];
      assert BinValue(d[..1]) == d[0];
      assert BinValue(d[..2]) == d[0] * 2 + d[1];
      assert BinValue(d[..3]) == (d[0] * 2 + d[1]) * 2 + d[2];
      assert d[..4] == d;
    }
    LowDigits(b);
  }

  lemma ByteBits(b: Byte)
    ensures BinValue(BinDigits(b, 8)) == b
  {
    assert Pow2(8) == 256;
    BinDigitsValue(b, 8);
  }

  const Two37: int := 0x20_0000_0000
  const Two38: int := 0x40_0000_0000

  lemma Pow2Of38()
    ensures Pow2(38) == Two38
  {
    Pow2Crc();
    Pow2Add(24, 8);
    Pow2Add(32, 6);
    assert Pow2(6) == 64;
  }

  /** `if raw & (1 << 37): raw -= 1 << 38`: a 38-bit two's-complement field. */
  function SignExtend38(raw: nat): int {
    if (raw / Two37) % 2 == 1 then raw - Two38 else raw
  }

  /** The 38-bit two's-complement encoding of a signed value. */
  function TwosComplement38(v: int): nat
    requires -Two37 <= v < Two37
  {
    if v < 0 then v + Two38 else v
  }

  /** Sign extension and two's-complement encoding are inverse on their ranges. */
  lemma SignExtendRoundTrip(raw: nat, v: int)
    requires raw < Two38 && -Two37 <= v < Two37
    ensures -Two37 <= SignExtend38(raw) < Two37 && TwosComplement38(SignExtend38(raw)) == raw
    ensures SignExtend38(TwosComplement38(v)) == v
  {
  }

  /** The fields of a 1005 record, coordinates as raw integers in units of 0.0001 m. */
  datatype Station1005 = Station1005(
    messageType: nat, stationId: nat, itrf: nat, ecefX: int, ecefY: int, ecefZ: int)

  /** int(bits[lo:hi], 2). */
  function Field(payload: seq<Byte>, lo: nat, hi: nat): nat
    requires lo <= hi <= 8 * |payload|
  {
    BinValue(BitString(payload)[lo..hi])
  }

  /** A signed 38-bit coordinate at bit lo. */
  function Coordinate(payload: seq<Byte>, lo: nat): (v: int)
    requires lo + 38 <= 8 * |payload|
    ensures -Two37 <= v < Two37
    ensures TwosComplement38(v) == Field(payload, lo, lo + 38)
  {
    BinValueBound(BitString(payload)[lo..lo + 38]);
    Pow2Of38();
    SignExtendRoundTrip(Field(payload, lo, lo + 38), 0);
    SignExtend38(Field(payload, lo, lo + 38))
  }

  /**
   * parse_message_1005 on a payload (header and CRC already removed): the
   * empty dict (None) below 19 bytes, otherwise the fields at bits 12..24,
   * 24..30, 34..72, 72..110 and 110..148.
   */
  function ParseMessage1005(payload: seq<Byte>): (r: Option<Station1005>)
    ensures r.None? <==> |payload| < 19
    ensures r.Some? ==>
      && r.value.messageType == 1005
      && r.value.stationId == (payload[1] as int % 16) * 256 + payload[2]
      && r.value.itrf == payload[3] / 4
      && -Two37 <= r.value.ecefX < Two37 && -Two37 <= r.value.ecefY < Two37 && -Two37 <= r.value.ecefZ < Two37
      && TwosComplement38(r.value.ecefX) == Field(payload, 34, 72)
      && TwosComplement38(r.value.ecefY) == Field(payload, 72, 110)
      && TwosComplement38(r.value.ecefZ) == Field(payload, 110, 148)
  {
    if |payload| < 19 then None
    else
      StationFields(payload);
      Some(Station1005(1005, Field(payload, 12, 24), Field(payload, 24, 30),
        Coordinate(payload, 34), Coordinate(payload, 72), Coordinate(payload, 110)))
  }

  /**
   * As written, the Y field starts at bit 72, where message 1005 carries the
   * single-receiver-oscillator indicator (DF142): that indicator becomes the
   * sign of Y.
   */
  lemma Station1005YSignIsIndicator(payload: seq<Byte>)
    requires |payload| >= 19
    ensures ParseMessage1005(payload).value.ecefY < 0 <==> BitString(payload)[72] == 1
  {
    var f := BitString(payload)[72..110];
    TopBitValue(f);
    TopBitSign(f[0], BinValue(f[1..]));
    assert ParseMessage1005(payload).value.ecefY == SignExtend38(Field(payload, 72, 110));
  }

  /** A 38-digit string is its top digit times 2^37 plus the rest. */
  lemma TopBitValue(f: seq<nat>)
    requires |f| == 38 && AllBits(f)
    ensures BinValue(f) == f[0] * Two37 + BinValue(f[1..]) && BinValue(f[1..]) < Two37 && f[0] < 2
  {
    assert f == [f[0]] + f[1..];
    BinValueAppend([f[0]], f[1..]);
    assert BinValue([f[0]]) == f[0] by {
      assert [f[0]][..0] == [];
    }
    BinValueBound(f[1..]);
    Pow2Of38();
  }

  /** A 38-bit field is negative after sign extension exactly when its top bit is set. */
  lemma TopBitSign(b: nat, r: nat)
    requires b < 2 && r < Two37
    ensures SignExtend38(b * Two37 + r) < 0 <==> b == 1
  {
    if b == 1 {
      assert (Two37 + r) / Two37 == 1;
    } else {
      assert r / Two37 == 0;
    }
  }

  /**
   * parse_message_1005 with the layout of RTCM 10403.3 message 1005: X, Y and
   * Z (DF025, DF026, DF027) at bits 34..72, 74..112 and 114..152, past the
   * indicator bits DF142 and DF001 (72, 73) and DF364 (112, 113).
   */
  function ParseMessage1005Standard(payload: seq<Byte>): (r: Option<Station1005>)
    ensures r.None? <==> |payload| < 19
    ensures r.Some? ==>
      && r.value.messageType == 1005
      && r.value.stationId == (payload[1] as int % 16) * 256 + payload[2]
      && r.value.itrf == payload[3] / 4
      && -Two37 <= r.value.ecefX < Two37 && -Two37 <= r.value.ecefY < Two37 && -Two37 <= r.value.ecefZ < Two37
      && TwosComplement38(r.value.ecefX) == Field(payload, 34, 72)
      && TwosComplement38(r.value.ecefY) == Field(payload, 74, 112)
      && TwosComplement38(r.value.ecefZ) == Field(payload, 114, 152)
  {
    if |payload| < 19 then None
    else
      StationFields(payload);
      Some(Station1005(1005, Field(payload, 12, 24), Field(payload, 24, 30),
        Coordinate(payload, 34), Coordinate(payload, 74), Coordinate(payload, 114)))
  }

  /** Bits other than DF142, DF001 and DF364 (72, 73, 112, 113). */
  predicate SameExceptIndicators(p: seq<Byte>, q: seq<Byte>) {
    && |p| == |q|
    && forall i :: 0 <= i < 8 * |p| && i != 72 && i != 73 && i != 112 && i != 113 ==>
         BitString(p)[i] == BitString(q)[i]
  }

  /** In the standard layout the indicator bits change no decoded field. */
  lemma Station1005IgnoresIndicators(p: seq<Byte>, q: seq<Byte>)
    requires SameExceptIndicators(p, q)
    ensures ParseMessage1005Standard(p) == ParseMessage1005Standard(q)
  {
    if |p| >= 19 {
      var a, b := BitString(p), BitString(q);
      assert a[12..24] == b[12..24];
      assert a[24..30] == b[24..30];
      assert a[34..72] == b[34..72];
      assert a[74..112] == b[74..112];
      assert a[114..152] == b[114..152];
    }
  }

  /** As written, flipping the DF142 indicator alone flips the sign of Y. */
  lemma Station1005IndicatorChangesY(p: seq<Byte>, q: seq<Byte>)
    requires |p| >= 19 && SameExceptIndicators(p, q)
    requires BitString(p)[72] != BitString(q)[72]
    ensures ParseMessage1005(p) != ParseMessage1005(q)
    ensures ParseMessage1005Standard(p) == ParseMessage1005Standard(q)
  {
    Station1005YSignIsIndicator(p);
    Station1005YSignIsIndicator(q);
    Station1005IgnoresIndicators(p, q);
  }

  /**
   * Where the station id and ITRF year sit in the payload bytes; the first
   * twelve bits are the message number MessageType reads from the header.
   */
  lemma StationFields(payload: seq<Byte>)
    requires |payload| >= 4
    ensures Field(payload, 12, 24) == (payload[1] as int % 16) * 256 + payload[2]
    ensures Field(payload, 24, 30) == payload[3] / 4
    ensures Field(payload, 0, 12) == MessageType(payload[0], payload[1])
  {
    StationIdField(payload);
    ItrfField(payload);
    MessageNumberField(payload);
  }

  /** Bits 12..24: the low nibble of byte 1 above byte 2. */
  lemma StationIdField(payload: seq<Byte>)
    requires |payload| >= 4
    ensures Field(payload, 12, 24) == (payload[1] as int % 16) * 256 + payload[2]
  {
    var bits := BitString(payload);
    BitStringByte(payload, 1);
    BitStringByte(payload, 2);
    ByteBits(payload[2]);
    LowBits(payload[1]);
    assert Pow2(8) == 256;
    assert bits[12..24] == bits[8..16][4..] + bits[16..24];
    BinValueAppend(BinDigits(payload[1], 8)[4..], BinDigits(payload[2], 8));
  }

  /** Bits 24..30: the top six bits of byte 3. */
  lemma ItrfField(payload: seq<Byte>)
    requires |payload| >= 4
    ensures Field(payload, 24, 30) == payload[3] / 4
  {
    var bits := BitString(payload);
    BitStringByte(payload, 3);
    HighBits(payload[3]);
    assert bits[24..30] == BinDigits(payload[3], 8)[..6];
  }

  /** Bits 0..12: byte 0 above the high nibble of byte 1, as in the frame header. */
  lemma MessageNumberField(payload: seq<Byte>)
    requires |payload| >= 4
    ensures Field(payload, 0, 12) == MessageType(payload[0], payload[1])
  {
    var bits := BitString(payload);
    BitStringByte(payload, 0);
    BitStringByte(payload, 1);
    HighBits(payload[1]);
    ByteBits(payload[0]);
    assert Pow2(4) == 16;
    assert bits[0..12] == BinDigits(payload[0], 8) + BinDigits(payload[1], 8)[..4];
    BinValueAppend(BinDigits(payload[0], 8), BinDigits(payload[1], 8)[..4]);
  }

  // ---- get_message_info ----

  /** MESSAGE_TYPES: the name of each message number the table knows, None for all others. */
  function MessageName(msgType: int): Option<string> {
    match msgType
    case 1001 => Some("GPS L1 RTK Observables")
    case 1002 => Some("GPS Extended L1 RTK Observables")
    case 1003 => Some("GPS L1/L2 RTK Observables")
    case 1004 => Some("GPS Extended L1/L2 RTK Observables")
    case 1005 => Some("Stationary RTK Reference Station ARP")
    case 1006 => Some("Stationary RTK Reference Station ARP with Height")
    case 1007 => Some("Antenna Descriptor")
    case 1008 => Some("Antenna Descriptor & Serial Number")
    case 1009 => Some("GLONASS L1 RTK Observables")
    case 1010 => Some("GLONASS Extended L1 RTK Observables")
    case 1011 => Some("GLONASS L1/L2 RTK Observables")
    case 1012 => Some("GLONASS Extended L1/L2 RTK Observables")
    case 1013 => Some("System Parameters")
    case 1019 => Some("GPS Ephemeris")
    case 1020 => Some("GLONASS Ephemeris")
    case 1033 => Some("Receiver and Antenna Descriptors")
    case 1074 => Some("GPS MSM4")
    case 1075 => Some("GPS MSM5")
    case 1076 => Some("GPS MSM6")
    case 1077 => Some("GPS MSM7")
    case 1084 => Some("GLONASS MSM4")
    case 1085 => Some("GLONASS MSM5")
    case 1086 => Some("GLONASS MSM6")
    case 1087 => Some("GLONASS MSM7")
    case 1094 => Some("Galileo MSM4")
    case 1095 => Some("Galileo MSM5")
    case 1096 => Some("Galileo MSM6")
    case 1097 => Some("Galileo MSM7")
    case 1124 => Some("BeiDou MSM4")
    case 1125 => Some("BeiDou MSM5")
    case 1126 => Some("BeiDou MSM6")
    case 1127 => Some("BeiDou MSM7")
    case 1230 => Some("GLONASS Code-Phase Biases")
    case _ => None
  }

  /** The table's name for a known type, otherwise "Unknown Type <n>" (from which n can be read back). */
  function GetMessageInfo(msgType: int): (info: string)
    ensures MessageName(msgType).Some? ==> info == MessageName(msgType).value
    ensures MessageName(msgType).None? ==>
      Text.StartsWith(info, "Unknown Type ") && Text.ParseInt(info[13..]) == Some(msgType)
  {
    if MessageName(msgType).Some? then MessageName(msgType).value
    else
      var info := "Unknown Type " + Text.IntToString(msgType);
      assert info[13..] == Text.IntToString(msgType);
      Text.ParseIntRoundTrip(msgType);
      info
  }

  // ---- frame scanning and reassembly ----

  /** A preamble, a header and exactly as many bytes as the header declares (the CRC unchecked). */
  predicate IsFramed(f: seq<Byte>) {
    |f| >= 6 && f[0] == Preamble && |f| == DeclaredLength(f[1], f[2]) + 6
  }

  /**
   * The complete candidate frames of a stream, in order: bytes other than the
   * preamble are skipped one at a time, a preamble with fewer than six bytes
   * or fewer than its declared length plus six left ends the scan, and a
   * complete candidate is taken whole, whatever its CRC.
   */
  function Candidates(buf: seq<Byte>): seq<seq<Byte>>
    decreases |buf|
  {
    if buf == [] then []
    else if buf[0] != Preamble then Candidates(buf[1..])
    else if |buf| < 6 then []
    else
      var total := DeclaredLength(buf[1], buf[2]) + 6;
      if |buf| < total then [] else [buf[..total]] + Candidates(buf[total..])
  }

  /** Every candidate starts with the preamble and is exactly as long as its header declares. */
  lemma {:induction false} CandidatesFramed(buf: seq<Byte>)
    ensures forall k :: 0 <= k < |Candidates(buf)| ==> IsFramed(Candidates(buf)[k])
    decreases |buf|
  {
    if buf != [] {
      if buf[0] != Preamble {
        CandidatesFramed(buf[1..]);
      } else if |buf| >= 6 && |buf| >= DeclaredLength(buf[1], buf[2]) + 6 {
        var total := DeclaredLength(buf[1], buf[2]) + 6;
        CandidatesFramed(buf[total..]);
        assert Candidates(buf) == [buf[..total]] + Candidates(buf[total..]);
      }
    }
  }

  /** The candidates validate_message accepts, in order. */
  function ValidFrames(cs: seq<seq<Byte>>): (vs: seq<seq<Byte>>)
    ensures |vs| <= |cs|
  {
    if cs == [] then []
    else (if ValidateMessage(cs[0]).valid then [cs[0]] else []) + ValidFrames(cs[1..])
  }

  /** ValidFrames is a filter: it keeps exactly the accepted candidates. */
  lemma {:induction false} ValidFramesFilter(cs: seq<seq<Byte>>)
    ensures forall k :: 0 <= k < |ValidFrames(cs)| ==>
      ValidateMessage(ValidFrames(cs)[k]).valid && ValidFrames(cs)[k] in cs
    ensures forall c :: c in cs && ValidateMessage(c).valid ==> c in ValidFrames(cs)
  {
    if cs != [] {
      ValidFramesFilter(cs[1..]);
      assert forall c :: c in cs ==> c == cs[0] || c in cs[1..];
    }
  }

  lemma {:induction false} ValidFramesAppend(a: seq<seq<Byte>>, b: seq<seq<Byte>>)
    ensures ValidFrames(a + b) == ValidFrames(a) + ValidFrames(b)
    decreases |a|
  {
    if a == [] {
      assert a + b == b;
    } else {
      var c, t := a[0], a[1..];
      assert a == [c] + t && a + b == [c] + (t + b);
      ValidFramesCons(c, t);
      ValidFramesCons(c, t + b);
      ValidFramesAppend(t, b);
      var h := if ValidateMessage(c).valid then [c] else [];
      assert h + (ValidFrames(t) + ValidFrames(b)) == (h + ValidFrames(t)) + ValidFrames(b);
    }
  }

  /** Filtering one more candidate at the end. */
  lemma ValidFramesSnoc(cs: seq<seq<Byte>>, c: seq<Byte>)
    ensures ValidFrames(cs + [c]) == ValidFrames(cs) + (if ValidateMessage(c).valid then [c] else [])
  {
    ValidFramesAppend(cs, [c]);
    ValidFramesCons(c, []);
    var h := if ValidateMessage(c).valid then [c] else [];
    assert h + [] == h;
  }

  lemma ValidFramesCons(c: seq<Byte>, cs: seq<seq<Byte>>)
    ensures ValidFrames([c] + cs) == (if ValidateMessage(c).valid then [c] else []) + ValidFrames(cs)
  {
    assert ([c] + cs)[0] == c && ([c] + cs)[1..] == cs;
  }

  /**
   * What one run of _extract_messages leaves in the buffer, and the complete
   * candidate frames it cut off the buffer (valid or not), in order.
   */
  datatype Extraction = Extraction(rest: seq<Byte>, taken: seq<seq<Byte>>)

  /** The loop of _extract_messages as a function of the buffer it starts from. */
  function Extract(buf: seq<Byte>): Extraction
    decreases |buf|
  {
    if |buf| < 6 then Extraction(buf, [])
    else match IndexOf(buf, Preamble)
      case None => Extraction([], [])
      case Some(i) =>
        var b := buf[i..];
        if |b| < 3 then Extraction(b, [])
        else
          var total := DeclaredLength(b[1], b[2]) + 6;
          if |b| < total then Extraction(b, [])
          else
            var e := Extract(b[total..]);
            Extraction(e.rest, [b[..total]] + e.taken)
  }

  /** A pass of the loop that finds a preamble at i followed by a complete frame of total bytes cuts that frame off. */
  lemma ExtractFrame(buf: seq<Byte>, i: nat, total: nat)
    requires |buf| >= 6 && IndexOf(buf, Preamble) == Some(i) && |buf[i..]| >= 3
    requires total == DeclaredLength(buf[i..][1], buf[i..][2]) + 6 && |buf[i..]| >= total
    ensures Extract(buf).rest == Extract(buf[i..][total..]).rest
    ensures Extract(buf).taken == [buf[i..][..total]] + Extract(buf[i..][total..]).taken
  {
  }

  /** The frame one pass cuts off moves from what is still to come to what was taken. */
  lemma TakeFrame(start: seq<Byte>, buf: seq<Byte>, i: nat, total: nat, taken: seq<seq<Byte>>)
    requires |buf| >= 6 && IndexOf(buf, Preamble) == Some(i) && |buf[i..]| >= 3
    requires total == DeclaredLength(buf[i..][1], buf[i..][2]) + 6 && |buf[i..]| >= total
    requires Extract(start).rest == Extract(buf).rest
    requires Extract(start).taken == taken + Extract(buf).taken
    ensures Extract(start).rest == Extract(buf[i..][total..]).rest
    ensures Extract(start).taken == (taken + [buf[i..][..total]]) + Extract(buf[i..][total..]).taken
  {
    ExtractFrame(buf, i, total);
    var f, r := buf[i..][..total], Extract(buf[i..][total..]).taken;
    assert taken + ([f] + r) == (taken + [f]) + r;
  }

  /** A pass that finds no preamble clears the buffer and ends the extraction. */
  lemma StopCleared(start: seq<Byte>, buf: seq<Byte>, taken: seq<seq<Byte>>)
    requires |buf| >= 6 && IndexOf(buf, Preamble).None?
    requires Extract(start).rest == Extract(buf).rest
    requires Extract(start).taken == taken + Extract(buf).taken
    ensures Extract(start).rest == [] && Extract(start).taken == taken
  {
    assert Extract(buf) == Extraction([], []);
    assert taken + [] == taken;
  }

  /** A pass that finds a preamble at i without a complete frame after it ends the extraction there. */
  lemma StopWaiting(start: seq<Byte>, buf: seq<Byte>, i: nat, taken: seq<seq<Byte>>)
    requires |buf| >= 6 && IndexOf(buf, Preamble) == Some(i)
    requires |buf[i..]| < 3 || |buf[i..]| < DeclaredLength(buf[i..][1], buf[i..][2]) + 6
    requires Extract(start).rest == Extract(buf).rest
    requires Extract(start).taken == taken + Extract(buf).taken
    ensures Extract(start).rest == buf[i..] && Extract(start).taken == taken
  {
    ExtractWait(buf, i);
    assert taken + [] == taken;
  }

  /** Whichever way the loop ends, what is left and what was taken are those of the whole extraction. */
  lemma Finished(start: seq<Byte>, buf: seq<Byte>, taken: seq<seq<Byte>>)
    requires
      || (|buf| < 6 && Extract(start).rest == Extract(buf).rest && Extract(start).taken == taken + Extract(buf).taken)
      || (Extract(start).rest == buf && Extract(start).taken == taken)
    ensures Extract(start).rest == buf && Extract(start).taken == taken
  {
    if |buf| < 6 && Extract(start).rest == Extract(buf).rest && Extract(start).taken == taken + Extract(buf).taken {
      assert Extract(buf) == Extraction(buf, []);
      assert taken + [] == taken;
    }
  }

  /** A pass that finds a preamble at i without a complete frame after it stops there. */
  lemma ExtractWait(buf: seq<Byte>, i: nat)
    requires |buf| >= 6 && IndexOf(buf, Preamble) == Some(i)
    requires |buf[i..]| < 3 || |buf[i..]| < DeclaredLength(buf[i..][1], buf[i..][2]) + 6
    ensures Extract(buf) == Extraction(buf[i..], [])
  {
  }

  /** What is left is always a suffix of the buffer. */
  lemma {:induction false} ExtractRestSuffix(buf: seq<Byte>)
    ensures var r := Extract(buf).rest; |r| <= |buf| && r == buf[|buf| - |r|..]
    decreases |buf|
  {
    if |buf| < 6 {
      assert buf[0..] == buf;
    } else if IndexOf(buf, Preamble).Some? {
      var i := IndexOf(buf, Preamble).value;
      var b := buf[i..];
      if |b| >= 3 && |b| >= DeclaredLength(b[1], b[2]) + 6 {
        var total := DeclaredLength(b[1], b[2]) + 6;
        ExtractFrame(buf, i, total);
        ExtractRestSuffix(b[total..]);
        SuffixOfSuffix(buf, i, total, Extract(b[total..]).rest);
      } else {
        ExtractWait(buf, i);
        assert buf[|buf| - |b|..] == b;
      }
    }
  }

  /** A suffix of what follows a frame at i is a suffix of the buffer. */
  lemma SuffixOfSuffix(buf: seq<Byte>, i: nat, total: nat, r: seq<Byte>)
    requires i + total <= |buf|
    requires |r| <= |buf[i..][total..]| && r == buf[i..][total..][|buf[i..][total..]| - |r|..]
    ensures |r| <= |buf| && r == buf[|buf| - |r|..]
  {
    assert buf[i..][total..] == buf[i + total..];
  }

  /**
   * What is left: less than a header plus CRC, or a preamble waiting for the
   * rest of its frame (the third outcome, a buffer with no preamble cleared,
   * is the empty rest).
   */
  lemma {:induction false} ExtractRest(buf: seq<Byte>)
    ensures var r := Extract(buf).rest;
      |r| < 6 || (r[0] == Preamble && |r| < DeclaredLength(r[1], r[2]) + 6)
    decreases |buf|
  {
    if |buf| >= 6 && IndexOf(buf, Preamble).Some? {
      var i := IndexOf(buf, Preamble).value;
      var b := buf[i..];
      if |b| >= 3 && |b| >= DeclaredLength(b[1], b[2]) + 6 {
        var total := DeclaredLength(b[1], b[2]) + 6;
        ExtractFrame(buf, i, total);
        ExtractRest(b[total..]);
      } else {
        ExtractWait(buf, i);
      }
    }
  }

  /** A preamble followed by a complete frame: that frame is the first candidate. */
  lemma CandidatesFrame(buf: seq<Byte>, total: nat)
    requires |buf| >= 6 && buf[0] == Preamble
    requires total == DeclaredLength(buf[1], buf[2]) + 6 && |buf| >= total
    ensures Candidates(buf) == [buf[..total]] + Candidates(buf[total..])
  {
  }

  lemma {:induction false} CandidatesShort(buf: seq<Byte>)
    requires |buf| < 6
    ensures Candidates(buf) == []
    decreases |buf|
  {
    if buf != [] && buf[0] != Preamble {
      CandidatesShort(buf[1..]);
    }
  }

  /** Bytes before the first preamble contribute nothing. */
  lemma {:induction false} CandidatesSkip(buf: seq<Byte>, i: nat)
    requires i <= |buf| && forall j :: 0 <= j < i ==> buf[j] != Preamble
    ensures Candidates(buf) == Candidates(buf[i..])
    decreases i
  {
    if i > 0 {
      assert buf[0] != Preamble;
      CandidatesSkip(buf[1..], i - 1);
      assert buf[1..][i - 1..] == buf[i..];
    }
  }

  /**
   * The find-based loop cuts off exactly the candidates of the byte-at-a-time
   * scan: every complete frame, whole, in stream order, whatever its CRC.
   */
  lemma {:induction false} ExtractTakesCandidates(buf: seq<Byte>)
    ensures Extract(buf).taken == Candidates(buf)
    decreases |buf|
  {
    if |buf| < 6 {
      CandidatesShort(buf);
    } else if IndexOf(buf, Preamble).None? {
      IndexOfFirst(buf, Preamble);
      CandidatesSkip(buf, |buf|);
      assert buf[|buf|..] == [];
    } else {
      var i := IndexOf(buf, Preamble).value;
      IndexOfFirst(buf, Preamble);
      CandidatesSkip(buf, i);
      var b := buf[i..];
      if |b| >= 3 && |b| >= DeclaredLength(b[1], b[2]) + 6 {
        var total := DeclaredLength(b[1], b[2]) + 6;
        ExtractFrame(buf, i, total);
        ExtractTakesCandidates(b[total..]);
      } else {
        ExtractWait(buf, i);
        if |b| < 6 {
          CandidatesShort(b);
        }
      }
    }
  }

  /** Candidates of a stream = those of a first piece + those of what the buffer kept of it followed by the second piece. */
  lemma {:induction false} CandidatesChunked(a: seq<Byte>, b: seq<Byte>)
    ensures Candidates(a + b) == Candidates(a) + Candidates(Extract(a).rest + b)
    decreases |a|
  {
    if |a| < 6 {
      CandidatesShort(a);
      assert Candidates(a) + Candidates(Extract(a).rest + b) == Candidates(a + b);
    } else if IndexOf(a, Preamble).None? {
      IndexOfFirst(a, Preamble);
      CandidatesSkip(a, |a|);
      CandidatesSkip(a + b, |a|);
      assert (a + b)[|a|..] == b;
      assert a[|a|..] == [];
      assert Extract(a).rest + b == b;
      assert Candidates(a) + Candidates(b) == Candidates(b);
    } else {
      var i := IndexOf(a, Preamble).value;
      var c := a[i..];
      if |c| >= 3 && |c| >= DeclaredLength(c[1], c[2]) + 6 {
        var total := DeclaredLength(c[1], c[2]) + 6;
        CandidatesChunked(c[total..], b);
        ChunkedFrame(a, b, i, total);
      } else {
        ChunkedWait(a, b, i);
      }
    }
  }

  /** Skipping to the first preamble of a skips the same bytes of a + b. */
  lemma CandidatesSkipPrefix(a: seq<Byte>, b: seq<Byte>, i: nat)
    requires IndexOf(a, Preamble) == Some(i)
    ensures Candidates(a) == Candidates(a[i..])
    ensures Candidates(a + b) == Candidates(a[i..] + b)
  {
    IndexOfFirst(a, Preamble);
    CandidatesSkip(a, i);
    SkipJoined(a, b, i);
  }

  lemma SkipJoined(a: seq<Byte>, b: seq<Byte>, i: nat)
    requires i <= |a| && forall j :: 0 <= j < i ==> a[j] != Preamble
    ensures Candidates(a + b) == Candidates(a[i..] + b)
  {
    var ab := a + b;
    assert forall j :: 0 <= j < i ==> ab[j] == a[j];
    CandidatesSkip(ab, i);
    assert ab[i..] == a[i..] + b;
  }

  lemma ChunkedFrame(a: seq<Byte>, b: seq<Byte>, i: nat, total: nat)
    requires |a| >= 6 && IndexOf(a, Preamble) == Some(i) && |a[i..]| >= 3
    requires total == DeclaredLength(a[i..][1], a[i..][2]) + 6 && |a[i..]| >= total
    requires var t := a[i..][total..];
      Candidates(t + b) == Candidates(t) + Candidates(Extract(t).rest + b)
    ensures Candidates(a + b) == Candidates(a) + Candidates(Extract(a).rest + b)
  {
    CandidatesSkipPrefix(a, b, i);
    ExtractFrame(a, i, total);
    ChunkedAt(a[i..], b, total, Extract(a[i..][total..]).rest);
  }

  lemma ChunkedAt(c: seq<Byte>, b: seq<Byte>, total: nat, r: seq<Byte>)
    requires |c| >= 6 && c[0] == Preamble
    requires total == DeclaredLength(c[1], c[2]) + 6 && |c| >= total
    requires Candidates(c[total..] + b) == Candidates(c[total..]) + Candidates(r + b)
    ensures Candidates(c + b) == Candidates(c) + Candidates(r + b)
  {
    FrameThenRest(c, b, total);
    var f, x, y := c[..total], Candidates(c[total..]), Candidates(r + b);
    assert [f] + (x + y) == ([f] + x) + y;
  }

  /** A complete frame at the head of c is also the first candidate of c + b. */
  lemma FrameThenRest(c: seq<Byte>, b: seq<Byte>, total: nat)
    requires |c| >= 6 && c[0] == Preamble
    requires total == DeclaredLength(c[1], c[2]) + 6 && |c| >= total
    ensures Candidates(c) == [c[..total]] + Candidates(c[total..])
    ensures Candidates(c + b) == [c[..total]] + Candidates(c[total..] + b)
  {
    var cb := c + b;
    assert cb[0] == c[0] && cb[1] == c[1] && cb[2] == c[2];
    assert cb[..total] == c[..total];
    assert cb[total..] == c[total..] + b;
    CandidatesFrame(cb, total);
    CandidatesFrame(c, total);
  }

  lemma ChunkedWait(a: seq<Byte>, b: seq<Byte>, i: nat)
    requires |a| >= 6 && IndexOf(a, Preamble) == Some(i)
    requires |a[i..]| < 3 || |a[i..]| < DeclaredLength(a[i..][1], a[i..][2]) + 6
    ensures Candidates(a + b) == Candidates(a) + Candidates(Extract(a).rest + b)
  {
    CandidatesSkipPrefix(a, b, i);
    var c := a[i..];
    var cb := c + b;
    ExtractWait(a, i);
    assert Candidates(c) == [] by {
      if |c| < 6 {
        CandidatesShort(c);
      }
    }
    assert Extract(a).rest + b == cb;
    assert Candidates(a) + Candidates(cb) == Candidates(cb);
  }

  /**
   * Reassembly does not depend on how the stream is cut into reads: feeding
   * a then b cuts off the same frames, in the same order, as feeding a + b.
   */
  lemma ExtractChunked(a: seq<Byte>, b: seq<Byte>)
    ensures Extract(a).taken + Extract(Extract(a).rest + b).taken == Extract(a + b).taken
  {
    CandidatesChunked(a, b);
    ExtractTakesCandidates(a);
    ExtractTakesCandidates(Extract(a).rest + b);
    ExtractTakesCandidates(a + b);
  }

  /** RTCMMessageBuffer: bytes not yet framed, and the frames accepted so far. */
  class RtcmMessageBuffer {
    var buffer: seq<Byte>
    var messages: seq<seq<Byte>>

    constructor ()
      ensures buffer == [] && messages == []
    {
      buffer := [];
      messages := [];
    }

    /** add_data: extend the buffer, then extract. */
    method AddData(data: seq<Byte>)
      modifies this
      ensures buffer == Extract(old(buffer) + data).rest
      ensures messages == old(messages) + ValidFrames(Extract(old(buffer) + data).taken)
    {
      buffer := buffer + data;
      ExtractMessages();
    }

    /**
     * _extract_messages: the while loop. Each complete candidate is cut off
     * whole; only those validate_message accepts are appended. The loop runs
     * on local copies of both fields, written back when it ends; nothing can
     * observe the fields in between.
     */
    method ExtractMessages()
      modifies this
      ensures buffer == Extract(old(buffer)).rest
      ensures messages == old(messages) + ValidFrames(Extract(old(buffer)).taken)
    {
      var buf, msgs := buffer, messages;
      ghost var start, taken: seq<seq<Byte>> := buffer, [];
      while |buf| >= 6
        invariant Extract(start).rest == Extract(buf).rest
        invariant Extract(start).taken == taken + Extract(buf).taken
        invariant msgs == old(messages) + ValidFrames(taken)
        decreases |buf|
      {
        ghost var before := buf;
        var idx := IndexOf(buf, Preamble);
        if idx.None? {
          buf := [];
          StopCleared(start, before, taken);
          break;
        }
        if idx.value > 0 {
          buf := buf[idx.value..];
        }
        if |buf| < 3 {
          StopWaiting(start, before, idx.value, taken);
          break;
        }
        var msgLen := DeclaredLength(buf[1], buf[2]);
        var totalLen := msgLen + 6;
        if |buf| < totalLen {
          StopWaiting(start, before, idx.value, taken);
          break;
        }
        var msgData := buf[..totalLen];
        buf := buf[totalLen..];
        TakeFrame(start, before, idx.value, totalLen, taken);
        ValidFramesSnoc(taken, msgData);
        taken := taken + [msgData];
        var v := ValidateMessage(msgData);
        if v.valid {
          msgs := msgs + [msgData];
        } else {
          assert msgs == msgs + [];
        }
      }
      Finished(start, buf, taken);
      buffer, messages := buf, msgs;
    }

    /** get_messages: hand over every stored frame, in order, and forget them. */
    method GetMessages() returns (ms: seq<seq<Byte>>)
      modifies this
      ensures ms == old(messages) && messages == [] && buffer == old(buffer)
    {
      ms := messages;
      messages := [];
    }

    /** has_messages. */
    function HasMessages(): (b: bool)
      reads this
      ensures b <==> |messages| > 0
    {
      |messages| > 0
    }
  }

  /**
   * What add_data stores is independent of how the stream is cut into reads:
   * the messages of a then b equal those of a + b.
   */
  lemma StoredChunked(a: seq<Byte>, b: seq<Byte>)
    ensures ValidFrames(Extract(a).taken) + ValidFrames(Extract(Extract(a).rest + b).taken)
         == ValidFrames(Extract(a + b).taken)
  {
    ExtractChunked(a, b);
    ValidFramesAppend(Extract(a).taken, Extract(Extract(a).rest + b).taken);
  }

  /**
   * Two reads through the buffer store the same frames as one read of their
   * concatenation, and every stored frame is a valid frame.
   */
  method TwoReads(a: seq<Byte>, b: seq<Byte>) returns (split: seq<seq<Byte>>, whole: seq<seq<Byte>>)
    ensures split == whole
    ensures forall k :: 0 <= k < |whole| ==> ValidateMessage(whole[k]).valid
  {
    assert [] + a == a && [] + (a + b) == a + b;
    var one := new RtcmMessageBuffer();
    one.AddData(a);
    ghost var first := ValidFrames(Extract(a).taken);
    assert one.messages == first && one.buffer == Extract(a).rest;
    one.AddData(b);
    split := one.GetMessages();
    var two := new RtcmMessageBuffer();
    two.AddData(a + b);
    whole := two.GetMessages();
    assert whole == ValidFrames(Extract(a + b).taken);
    StoredChunked(a, b);
    ValidFramesFilter(Extract(a + b).taken);
  }
}
