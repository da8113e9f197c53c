/** Machine words as their bits, least significant first, and bytes as numbers. */
module Bits {
  import opened ModArith

  type BitSeq = seq<bool>
  type byte = n: int | 0 <= n < 256
  type Octet = w: BitSeq | |w| == 8 witness Zeros(8)
  type Word = w: BitSeq | |w| == 32 witness Zeros(32)
  type Lane64 = w: BitSeq | |w| == 64 witness Zeros(64)

  function Zeros(n: nat): (r: BitSeq)
    ensures |r| == n && forall i | 0 <= i < n :: !r[i]
  {
    seq(n, _ => false)
  }

  function Ones(n: nat): (r: BitSeq)
    ensures |r| == n && forall i | 0 <= i < n :: r[i]
  {
    seq(n, _ => true)
  }

  function Xor(a: BitSeq, b: BitSeq): (r: BitSeq)
    requires |a| == |b|
    ensures |r| == |a| && forall i | 0 <= i < |a| :: r[i] == (a[i] != b[i])
  {
    seq(|a|, i requires 0 <= i < |a| => a[i] != b[i])
  }

  function And(a: BitSeq, b: BitSeq): (r: BitSeq)
    requires |a| == |b|
    ensures |r| == |a| && forall i | 0 <= i < |a| :: r[i] == (a[i] && b[i])
  {
    seq(|a|, i requires 0 <= i < |a| => a[i] && b[i])
  }

  function Not(a: BitSeq): (r: BitSeq)
    ensures |r| == |a| && forall i | 0 <= i < |a| :: r[i] == !a[i]
  {
    seq(|a|, i requires 0 <= i < |a| => !a[i])
  }

  function Or(a: BitSeq, b: BitSeq): (r: BitSeq)
    requires |a| == |b|
    ensures |r| == |a| && forall i | 0 <= i < |a| :: r[i] == (a[i] || b[i])
  {
    seq(|a|, i requires 0 <= i < |a| => a[i] || b[i])
  }

  function Shl(a: BitSeq, k: nat): (r: BitSeq)
    ensures |r| == |a| && forall i | 0 <= i < |a| :: r[i] == (i >= k && a[i - k])
  {
    seq(|a|, i requires 0 <= i < |a| => i >= k && a[i - k])
  }

  /** Logical shift right: bit k falls out at the bottom. */
  function Shr(a: BitSeq, k: nat): (r: BitSeq)
    ensures |r| == |a| && forall i | 0 <= i < |a| :: r[i] == (i + k < |a| && a[i + k])
  {
    seq(|a|, i requires 0 <= i < |a| => i + k < |a| && a[i + k])
  }

  /** The unsigned value of a word. */
  function ToNat(b: BitSeq): (n: nat)
  {
    if b == [] then 0 else B2I(b[0]) + 2 * ToNat(b[1..])
  }

  lemma {:induction false} ToNatBound(b: BitSeq)
    ensures ToNat(b) < Pow2(|b|)
  {
    if b != [] { ToNatBound(b[1..]); }
  }

  /** The low w bits of n. */
  function OfNat(n: nat, w: nat): (b: BitSeq)
    ensures |b| == w
    decreases w
  {
    if w == 0 then [] else [n % 2 == 1] + OfNat(n / 2, w - 1)
  }

  lemma {:induction false} OfNatToNat(n: nat, w: nat)
    requires n < Pow2(w)
    ensures ToNat(OfNat(n, w)) == n
    decreases w
  {
    if w > 0 {
      OfNatToNat(n / 2, w - 1);
      assert OfNat(n, w)[1..] == OfNat(n / 2, w - 1);
    }
  }

  lemma {:induction false} ToNatOfNat(b: BitSeq)
    ensures OfNat(ToNat(b), |b|) == b
  {
    if b != [] { ToNatOfNat(b[1..]); }
  }

  lemma HalfBit(n: nat, k: nat)
    requires 0 < k
    ensures BitOf(n / 2, k - 1) == BitOf(n, k)
  {
    var p := Pow2(k - 1);
    var d, e := (n / 2) / p, (n / 2) % p;
    assert n / 2 == p * d + e;
    assert n == (2 * p) * d + (2 * e + n % 2);
    DivModUnique(n, 2 * p, d, 2 * e + n % 2);
  }

  lemma {:induction false} OfNatBit(n: nat, w: nat, k: nat)
    requires k < w
    ensures OfNat(n, w)[k] == BitOf(n, k)
    decreases w
  {
    if k > 0 {
      OfNatBit(n / 2, w - 1, k - 1);
      HalfBit(n, k);
    }
  }

  lemma ToNatBit(b: BitSeq, k: nat)
    requires k < |b|
    ensures BitOf(ToNat(b), k) == b[k]
  {
    ToNatOfNat(b);
    OfNatBit(ToNat(b), |b|, k);
  }

  // ------------------------------------------------------------ bytes

  function ByteBits(b: byte): (r: BitSeq)
    ensures |r| == 8
  {
    OfNat(b, 8)
  }

  function BitsByte(r: BitSeq): byte
    requires |r| == 8
  {
    ToNatBound(r);
    assert Pow2(8) == 256;
    ToNat(r)
  }

  lemma ByteRoundTrip(b: byte)
    ensures BitsByte(ByteBits(b)) == b
  {
    assert Pow2(8) == 256;
    OfNatToNat(b, 8);
  }

  function XorByte(a: byte, b: byte): byte { BitsByte(Xor(ByteBits(a), ByteBits(b))) }

  /** The XOR of two byte strings: what two shares of a string stand for. */
  function XorBytes(a: seq<byte>, b: seq<byte>): (r: seq<byte>)
    requires |a| == |b|
    ensures |r| == |a| && forall i | 0 <= i < |a| :: r[i] == XorByte(a[i], b[i])
  {
    seq(|a|, i requires 0 <= i < |a| => XorByte(a[i], b[i]))
  }

  lemma XorByteBit(a: byte, b: byte, k: nat)
    requires k < 8
    ensures BitOf(XorByte(a, b), k) == (BitOf(a, k) != BitOf(b, k))
  {
    ToNatBit(Xor(ByteBits(a), ByteBits(b)), k);
    OfNatBit(a, 8, k);
    OfNatBit(b, 8, k);
  }

  /** Bit `pos` of a byte string read as one long little-endian bit string. */
  predicate StreamBit(buf: seq<byte>, pos: nat)
    requires pos / 8 < |buf|
  {
    BitOf(buf[pos / 8], pos % 8)
  }

  lemma {:induction false} ZeroBits(n: nat)
    ensures OfNat(0, n) == Zeros(n)
  {
    if n > 0 {
      ZeroBits(n - 1);
      assert [false] + Zeros(n - 1) == Zeros(n);
    }
  }

  lemma XorZero(a: byte)
    ensures XorByte(a, 0) == a
  {
    var z := OfNat(0, 8);
    ZeroBits(8);
    assert Xor(ByteBits(a), z) == ByteBits(a);
    ByteRoundTrip(a);
  }

  lemma XorZeroes(a: seq<byte>, z: seq<byte>)
    requires |a| == |z| && forall i | 0 <= i < |z| :: z[i] == 0
    ensures XorBytes(a, z) == a
  {
    hide XorByte;
    forall i | 0 <= i < |a| ensures XorBytes(a, z)[i] == a[i] { XorZero(a[i]); }
  }

  lemma XorPublicTail(k0: seq<byte>, k1: seq<byte>, tail: seq<byte>, z: seq<byte>)
    requires |k0| == |k1| && |tail| == |z| && forall i | 0 <= i < |z| :: z[i] == 0
    ensures XorBytes(k0 + tail, k1 + z) == XorBytes(k0, k1) + tail
  {
    XorZeroes(tail, z);
    assert XorBytes(k0 + tail, k1 + z) == XorBytes(k0, k1) + XorBytes(tail, z);
  }
}
