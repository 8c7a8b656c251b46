/** Option, the "may be absent" value used throughout the model for Python's None, and list mapping. */
module Wrappers {
  datatype Option<+T> = None | Some(value: T) {
    function GetOr(default: T): T {
      match this
      case Some(v) => v
      case None => default
    }
  }

  /** [f(x) for x in xs]. */
  function MapSeq<A, B>(f: A -> B, xs: seq<A>): seq<B> {
    if xs == [] then [] else MapSeq(f, xs[..|xs| - 1]) + [f(xs[|xs| - 1])]
  }

  lemma {:induction false} MapSeqLength<A, B>(f: A -> B, xs: seq<A>)
    ensures |MapSeq(f, xs)| == |xs|
  {
    if xs != [] {
      MapSeqLength(f, xs[..|xs| - 1]);
    }
  }

  /** The k-th element of the mapped list is f of the k-th element. */
  lemma {:induction false} MapSeqAt<A, B>(f: A -> B, xs: seq<A>, k: nat)
    requires k < |xs|
    ensures |MapSeq(f, xs)| == |xs| && MapSeq(f, xs)[k] == f(xs[k])
  {
    var init := xs[..|xs| - 1];
    MapSeqLength(f, xs);
    MapSeqLength(f, init);
    if k < |init| {
      MapSeqAt(f, init, k);
      assert init[k] == xs[k];
    }
  }

  lemma MapSeqSnoc<A, B>(f: A -> B, xs: seq<A>, x: A)
    ensures MapSeq(f, xs + [x]) == MapSeq(f, xs) + [f(x)]
  {
    assert (xs + [x])[..|xs|] == xs;
  }
}

/** Bytes as Python sees them: integers in 0..255. */
module Bytes {
  import opened Wrappers

  type Byte = b: int | 0 <= b < 256

  /** The RTCM 3 frame preamble. */
  const Preamble: Byte := 0xD3

  /** Three bytes read as one big-endian 24-bit unsigned integer. */
  function Uint24(hi: Byte, mid: Byte, lo: Byte): (n: nat)
    ensures n < 0x100_0000
  {
    hi * 0x1_0000 + mid * 0x100 + lo
  }

  /** The big-endian bytes of a 24-bit value. */
  function Uint24Bytes(n: nat): (bs: seq<Byte>)
    requires n < 0x100_0000
    ensures |bs| == 3 && Uint24(bs[0], bs[1], bs[2]) == n
  {
    var hi, low := n / 0x1_0000, n % 0x1_0000;
    var mid, lo := low / 0x100, low % 0x100;
    assert n == hi * 0x1_0000 + low;
    assert low == mid * 0x100 + lo;
    assert (n / 0x100) % 0x100 == mid by {
      DivMod256(hi * 0x100 + mid, lo);
      DivMod256(hi, mid);
    }
    [hi, (n / 0x100) % 0x100, n % 0x100]
  }

  /** Three bytes read as a 24-bit value and written back are the same three bytes. */
  lemma Uint24RoundTrip(hi: Byte, mid: Byte, lo: Byte)
    ensures Uint24Bytes(Uint24(hi, mid, lo)) == [hi, mid, lo]
  {
    var n := Uint24(hi, mid, lo);
    assert n == (hi * 0x100 + mid) * 0x100 + lo;
    DivMod256(hi * 0x100 + mid, lo);
    DivMod256(hi, mid);
    DivMod65536(hi, mid * 0x100 + lo);
  }

  /** Division by 64 and the remainder undo q * 64 + r. */
  lemma DivMod64(q: nat, r: nat)
    requires r < 64
    ensures (q * 64 + r) / 64 == q && (q * 64 + r) % 64 == r
  {
    var n := q * 64 + r;
    var d, e := n / 64, n % 64;
    assert n == d * 64 + e;
    assert (q - d) * 64 == e - r;
  }

  /** Division by 256 and the remainder undo q * 256 + r. */
  lemma DivMod256(q: nat, r: nat)
    requires r < 0x100
    ensures (q * 0x100 + r) / 0x100 == q && (q * 0x100 + r) % 0x100 == r
  {
    var n := q * 0x100 + r;
    var d, e := n / 0x100, n % 0x100;
    assert n == d * 0x100 + e;
    assert (q - d) * 0x100 == e - r;
  }

  lemma DivMod65536(q: nat, r: nat)
    requires r < 0x1_0000
    ensures (q * 0x1_0000 + r) / 0x1_0000 == q && (q * 0x1_0000 + r) % 0x1_0000 == r
  {
    var n := q * 0x1_0000 + r;
    var d, e := n / 0x1_0000, n % 0x1_0000;
    assert n == d * 0x1_0000 + e;
    assert (q - d) * 0x1_0000 == e - r;
  }

  /** 2^k. */
  function Pow2(k: nat): (p: nat)
    ensures p >= 1
  {
    if k == 0 then 1 else 2 * Pow2(k - 1)
  }

  lemma {:induction false} Pow2Add(a: nat, b: nat)
    ensures Pow2(a + b) == Pow2(a) * Pow2(b)
    decreases b
  {
    if b > 0 {
      Pow2Add(a, b - 1);
    }
  }

  /**
   * Python's `^` on non-negative integers, bit by bit from the least
   * significant end.
   */
  function Xor(a: nat, b: nat): nat
    decreases a + b
  {
    if a == 0 then b
    else if b == 0 then a
    else 2 * Xor(a / 2, b / 2) + (if a % 2 == b % 2 then 0 else 1)
  }

  /** The low bit of a ^ b and the rest, for every pair (zero operands included). */
  lemma XorUnfold(a: nat, b: nat)
    ensures Xor(a, b) == 2 * Xor(a / 2, b / 2) + (if a % 2 == b % 2 then 0 else 1)
  {
    if a == 0 {
      assert Xor(a / 2, b / 2) == b / 2;
    } else if b == 0 {
      assert Xor(a / 2, b / 2) == a / 2;
    }
  }

  /** XOR with 0 changes nothing. */
  lemma XorZero(a: nat)
    ensures Xor(a, 0) == a && Xor(0, a) == a
  {
  }

  /** XOR of two k-bit values is a k-bit value. */
  lemma {:induction false} XorBound(a: nat, b: nat, k: nat)
    requires a < Pow2(k) && b < Pow2(k)
    ensures Xor(a, b) < Pow2(k)
  {
    if k > 0 {
      XorUnfold(a, b);
      XorBound(a / 2, b / 2, k - 1);
    }
  }

  /** Two values whose top bit is bit k: XOR cancels that bit. */
  lemma {:induction false} XorTopBit(a: nat, b: nat, k: nat)
    requires Pow2(k) <= a < 2 * Pow2(k) && Pow2(k) <= b < 2 * Pow2(k)
    ensures Xor(a, b) == Xor(a - Pow2(k), b - Pow2(k))
  {
    var p := Pow2(k);
    if k == 0 {
      assert a == 1 && b == 1;
      assert Xor(a, b) == 2 * Xor(0, 0);
    } else {
      var q := Pow2(k - 1);
      assert p == 2 * q;
      var a1, b1 := a - p, b - p;
      assert a1 / 2 == a / 2 - q && a1 % 2 == a % 2;
      assert b1 / 2 == b / 2 - q && b1 % 2 == b % 2;
      XorTopBit(a / 2, b / 2, k - 1);
      XorUnfold(a, b);
      XorUnfold(a1, b1);
    }
  }

  /** bytes.find(b) for a single byte: the first index holding b, or None (Python's -1). */
  function IndexOf(s: seq<Byte>, b: Byte): (r: Option<nat>)
    ensures r.Some? ==> r.value < |s| && s[r.value] == b
  {
    if s == [] then None
    else if s[0] == b then Some(0)
    else match IndexOf(s[1..], b)
      case None => None
      case Some(i) => Some(i + 1)
  }

  /** The index found is the first: no earlier byte is b; and None means b does not occur. */
  lemma {:induction false} IndexOfFirst(s: seq<Byte>, b: Byte)
    ensures IndexOf(s, b).Some? ==> forall j :: 0 <= j < IndexOf(s, b).value ==> s[j] != b
    ensures IndexOf(s, b).None? ==> forall j :: 0 <= j < |s| ==> s[j] != b
  {
    if s != [] && s[0] != b {
      IndexOfFirst(s[1..], b);
      assert forall j :: 1 <= j < |s| ==> s[j] == s[1..][j - 1];
    }
  }

  /** Every byte is below 128: ASCII. */
  predicate AllAscii(bs: seq<Byte>) {
    forall i :: 0 <= i < |bs| ==> bs[i] < 128
  }
}
