/** ML-KEM decapsulation as the plain code runs it, proved to be Decaps. */
module MlKemPlain {
  import opened ModArith
  import opened Bits
  import opened Radix
  import opened BitCursor
  import opened NttTree
  import opened NttLoop
  import opened MlKemArith
  import opened MlKemNtt
  import opened MlKemRing
  import opened MlKemCompress
  import opened MlKemScheme
  import opened TreeProduct
  import KeccakSponge

  // ------------------------------------------------------------ one polynomial

  method KPolyNtt(a: KPoly, z: seq<int>) returns (r: KPoly)
    requires KZetaTable(z) && Within(a, KQ)
    ensures KSame(r, KHat(a)) && Within(r, 1664)
  {
    hide CongSeq, KHat, KZetaTable;
    var t := new int16[256](i requires 0 <= i < 256 && Within(a, KQ) => a[i]);
    assert t[..] == a;
    KNtt(t, z);
    r := t[..];
  }

  method KPolyInvNtt(a: KPoly, z: seq<int>) returns (r: KPoly)
    requires KZetaTable(z) && Within(a, KINV)
    ensures KSame(r, Scale(KR, KUnhat(a))) && Within(r, 1704)
  {
    hide CongSeq, KUnhat, KZetaTable;
    var t := new int16[256](i requires 0 <= i < 256 && Within(a, KINV) => a[i]);
    assert t[..] == a;
    KInvNtt(t, z);
    r := t[..];
  }

  /** A product's reduction, with the operands' range. */
  lemma MontProduct(a: int, b: int)
    requires -4095 <= a <= 4095 && -1664 <= b <= 1664
    ensures var r := MontReduce16(a * b);
      -1770 <= r <= 1770 && Cong(r, KRINV * (a * b), KQ)
  {
    hide MontReduce16, Cong;
    ProductRange(a, b, 4095, 1664);
    MontBound16(a * b, 104);
    MontFacts16(a * b);
    assert a * b * KRINV == KRINV * (a * b);
  }

  /** The twisted term of a base case: a1 b1 zeta, zeta in Montgomery form. */
  lemma TwistedTerm(a: int, b: int, zeta: int, c: int)
    requires -4095 <= a <= 4095 && -1664 <= b <= 1664 && -1664 <= zeta <= 1664 && Cong(zeta, KR * c, KQ)
    ensures var r := MontReduce16(MontReduce16(a * b) * zeta);
      -1720 <= r <= 1720 && Cong(r, KRINV * (c * (a * b)), KQ)
  {
    hide MontReduce16, Cong;
    MontProduct(a, b);
    var m := MontReduce16(a * b);
    ProductRange(m, zeta, 1770, 1664);
    MontBound16(m * zeta, 46);
    MontFacts16(m * zeta);
    CongMul(m, KRINV * (a * b), zeta, KR * c, KQ);
    CongScale(KRINV, m * zeta, (KRINV * (a * b)) * (KR * c), KQ);
    TwistedScalar(a * b, c);
    assert m * zeta * KRINV == KRINV * (m * zeta);
    CongTrans(MontReduce16(m * zeta), KRINV * (m * zeta), KRINV * ((KRINV * (a * b)) * (KR * c)), KQ);
    CongTrans(MontReduce16(m * zeta), KRINV * ((KRINV * (a * b)) * (KR * c)), KRINV * (c * (a * b)), KQ);
  }

  lemma TwistedScalar(p: int, c: int)
    ensures Cong(KRINV * ((KRINV * p) * (KR * c)), KRINV * (c * p), KQ)
  {
    CongIntro(KRINV * KR, 1, KQ, (KRINV * KR - 1) / KQ);
    hide Cong;
    CongScale(KRINV * (c * p), KRINV * KR, 1, KQ);
    TwistedRegroup(p, c);
  }

  lemma TwistedRegroup(p: int, c: int)
    ensures KRINV * ((KRINV * p) * (KR * c)) == (KRINV * (c * p)) * (KRINV * KR)
  {
    assert (KRINV * p) * (KR * c) == (KRINV * KR) * (c * p);
  }

  /** One degree-one base case. */
  method BaseMul(a0: int, a1: int, b0: int, b1: int, zeta: int, ghost c: int) returns (r0: int16, r1: int16)
    requires -4095 <= a0 <= 4095 && -4095 <= a1 <= 4095 && -1664 <= b0 <= 1664 && -1664 <= b1 <= 1664
    requires -1664 <= zeta <= 1664 && Cong(zeta, KR * c, KQ)
    ensures Cong(r0, KRINV * (a0 * b0 + c * (a1 * b1)), KQ) && Cong(r1, KRINV * (a0 * b1 + a1 * b0), KQ)
    ensures -3540 <= r0 <= 3540 && -3540 <= r1 <= 3540
  {
    hide MontReduce16, Cong;
    MontProduct(a1, b1);
    TwistedTerm(a1, b1, zeta, c);
    MontProduct(a0, b0);
    MontProduct(a0, b1);
    MontProduct(a1, b0);
    var t := MontReduce16(a1 * b1);
    t := MontReduce16(t * zeta);
    CongAdd(t, KRINV * (c * (a1 * b1)), MontReduce16(a0 * b0), KRINV * (a0 * b0), KQ);
    r0 := t + MontReduce16(a0 * b0);
    CongAdd(MontReduce16(a0 * b1), KRINV * (a0 * b1), MontReduce16(a1 * b0), KRINV * (a1 * b0), KQ);
    r1 := MontReduce16(a0 * b1) + MontReduce16(a1 * b0);
  }

  /** Coefficient j of the product, in Montgomery form. */
  ghost predicate BaseDone(r: int, a: KPoly, b: KPoly, j: nat)
    requires j < 256
  {
    -3540 <= r <= 3540 && Cong(r, KRINV * BaseAt(a, b, j), KQ)
  }

  lemma PairZeta(z: seq<int>, i: nat)
    requires KZetaTable(z) && i < 128
    ensures |z| == 128
    ensures i % 2 == 0 ==> -1664 <= z[64 + i / 2] <= 1664 && Cong(z[64 + i / 2], KR * PairRho(i), KQ)
    ensures i % 2 == 1 ==> -1664 <= -z[64 + i / 2] <= 1664 && Cong(-z[64 + i / 2], KR * PairRho(i), KQ)
  {
    hide Cong, KZ;
    assert Cong(z[64 + i / 2], KR * KZ()(64 + i / 2), KQ);
    CongScale(-1, z[64 + i / 2], KR * KZ()(64 + i / 2), KQ);
  }

  lemma BasePair(r0: int, r1: int, a: KPoly, b: KPoly, i: nat)
    requires i < 128 && -3540 <= r0 <= 3540 && -3540 <= r1 <= 3540
    requires Cong(r0, KRINV * (a[2 * i] * b[2 * i] + PairRho(i) * (a[2 * i + 1] * b[2 * i + 1])), KQ)
    requires Cong(r1, KRINV * (a[2 * i] * b[2 * i + 1] + a[2 * i + 1] * b[2 * i]), KQ)
    ensures BaseDone(r0, a, b, 2 * i) && BaseDone(r1, a, b, 2 * i + 1)
  {
    hide Cong, PairRho;
  }

  method PolyBaseMul(a: KPoly, b: KPoly, z: seq<int>) returns (r: KPoly)
    requires KZetaTable(z) && Within(a, 4095) && Within(b, 1664)
    ensures KSame(r, Scale(KRINV, Base(a, b))) && Within(r, 3540)
  {
    hide Cong, PairRho, BaseDone, KZetaTable;
    var s: seq<int> := [];
    for i := 0 to 64
      invariant |s| == 4 * i && forall k | 0 <= k < 4 * i :: BaseDone(s[k], a, b, k)
    {
      PairZeta(z, 2 * i);
      PairZeta(z, 2 * i + 1);
      var r0, r1 := BaseMul(a[4 * i], a[4 * i + 1], b[4 * i], b[4 * i + 1], z[64 + i], PairRho(2 * i));
      BasePair(r0, r1, a, b, 2 * i);
      var r2, r3 := BaseMul(a[4 * i + 2], a[4 * i + 3], b[4 * i + 2], b[4 * i + 3], -z[64 + i], PairRho(2 * i + 1));
      BasePair(r2, r3, a, b, 2 * i + 1);
      s := s + [r0, r1, r2, r3];
    }
    r := s;
    BaseFinish(r, a, b);
  }

  lemma BaseFinish(r: KPoly, a: KPoly, b: KPoly)
    requires forall k | 0 <= k < 256 :: BaseDone(r[k], a, b, k)
    ensures KSame(r, Scale(KRINV, Base(a, b))) && Within(r, 3540)
  {
    hide Cong, BaseAt;
    forall k | 0 <= k < 256 ensures Cong(r[k], Scale(KRINV, Base(a, b))[k], KQ) && -3540 <= r[k] <= 3540 {
      assert BaseDone(r[k], a, b, k);
    }
  }

  method KPolyAdd(a: KPoly, b: KPoly) returns (c: KPoly)
    requires forall i | 0 <= i < 256 :: -0x8000 <= a[i] + b[i] < 0x8000
    ensures c == Plus(a, b)
  {
    var s: seq<int16> := [];
    for i := 0 to 256
      invariant |s| == i && forall k | 0 <= k < i :: s[k] == a[k] + b[k]
    {
      s := s + [a[i] + b[i]];
    }
    c := s;
  }

  method KPolySub(a: KPoly, b: KPoly) returns (c: KPoly)
    requires forall i | 0 <= i < 256 :: -0x8000 <= a[i] - b[i] < 0x8000
    ensures c == Plus(a, Negated(b))
  {
    var s: seq<int16> := [];
    for i := 0 to 256
      invariant |s| == i && forall k | 0 <= k < i :: s[k] == a[k] - b[k]
    {
      s := s + [a[i] - b[i]];
    }
    c := s;
  }

  method CanonPoly(a: KPoly) returns (r: KPoly)
    requires Within(a, 0x7fff)
    ensures r == KCanon(a)
  {
    hide Barrett16, ToPositive;
    var s: seq<int> := [];
    for i := 0 to 256
      invariant |s| == i && forall k | 0 <= k < i :: s[k] == a[k] % KQ
    {
      PositiveContract(a[i]);
      s := s + [ToPositive(Barrett16(a[i]))];
    }
    r := s;
  }

  method KPolyReduce(a: KPoly) returns (r: KPoly)
    requires Within(a, 0x7fff)
    ensures KSame(r, a) && Within(r, 1664)
  {
    hide Cong, Barrett16;
    var s: seq<int> := [];
    for i := 0 to 256
      invariant |s| == i && forall k | 0 <= k < i :: -1664 <= s[k] <= 1664 && Cong(s[k], a[k], KQ)
    {
      BarrettContract(a[i]);
      s := s + [Barrett16(a[i])];
    }
    r := s;
  }

  lemma KWithinPlus(a: KPoly, b: KPoly, x: int, y: int)
    requires Within(a, x) && Within(b, y) && 0 <= x + y < 0x8000
    ensures Within(Plus(a, b), x + y) && forall i | 0 <= i < 256 :: -0x8000 <= a[i] + b[i] < 0x8000
  {
  }

  ghost predicate KVecWithin(v: KVec, b: int) { forall i | 0 <= i < |v| :: Within(v[i], b) }

  /** v holds, mod q, the transforms of x. */
  ghost predicate KTransformed(v: KVec, x: KVec) {
    |v| == |x| && forall i | 0 <= i < |v| :: KSame(v[i], KHat(x[i])) && Within(v[i], 1664)
  }

  method KVecNtt(v: KVec, z: seq<int>) returns (r: KVec)
    requires KZetaTable(z) && KVecWithin(v, KQ)
    ensures KTransformed(r, v)
  {
    hide KSame, Within, KHat, KZetaTable;
    r := [];
    for i := 0 to |v|
      invariant |r| == i && forall k | 0 <= k < i :: KSame(r[k], KHat(v[k])) && Within(r[k], 1664)
    {
      var t := KPolyNtt(v[i], z);
      r := r + [t];
    }
  }

  // ------------------------------------------------------------ inner products

  lemma KDotNext(a: KVec, x: KVec, n: nat, acc: KPoly, t: KPoly, xh: KPoly)
    requires n < |a| && n < |x| && KSame(acc, Scale(KRINV, KDot(a, x, n)))
    requires KSame(xh, KHat(x[n])) && KSame(t, Scale(KRINV, Base(a[n], xh)))
    ensures KSame(Plus(acc, t), Scale(KRINV, KDot(a, x, n + 1)))
  {
    hide KSame, KHat, CongSeq, Scale, Base, Plus;
    KDotUnfold(a, x, n);
    KSameRefl(a[n]);
    BaseSame(a[n], a[n], xh, KHat(x[n]));
    KSameScale(KRINV, Base(a[n], xh), Base(a[n], KHat(x[n])));
    KSameTrans(t, Scale(KRINV, Base(a[n], xh)), Scale(KRINV, Base(a[n], KHat(x[n]))));
    KSamePlus(acc, Scale(KRINV, KDot(a, x, n)), t, Scale(KRINV, Base(a[n], KHat(x[n]))));
    ScalePlusSeq(KRINV, KDot(a, x, n), Base(a[n], KHat(x[n])));
  }

  lemma KDotUnfold(a: KVec, x: KVec, n: nat)
    requires n < |a| && n < |x|
    ensures KDot(a, x, n + 1) == Plus(KDot(a, x, n), Base(a[n], KHat(x[n])))
  {
  }

  lemma KDotFirst(a: KVec, x: KVec, t: KPoly, xh: KPoly)
    requires 0 < |a| && 0 < |x| && KSame(xh, KHat(x[0])) && KSame(t, Scale(KRINV, Base(a[0], xh)))
    ensures KSame(t, Scale(KRINV, KDot(a, x, 1)))
  {
    KZeroSame();
    hide KSame, KHat, CongSeq, Scale, Base;
    assert KDot(a, x, 0) == ZeroK();
    KDotNext(a, x, 0, ZeroK(), t, xh);
    assert Plus(ZeroK(), t) == t;
  }

  lemma KZeroSame()
    ensures KSame(ZeroK(), Scale(KRINV, ZeroK()))
  {
    assert Scale(KRINV, ZeroK()) == ZeroK();
    KSameRefl(ZeroK());
  }

  /** The inner product on transforms, reduced. */
  method VecDot(a: KVec, v: KVec, ghost x: KVec, z: seq<int>) returns (r: KPoly)
    requires 0 < |a| == |v| <= 4 && KTransformed(v, x) && KVecWithin(a, 4095) && KZetaTable(z)
    ensures KSame(r, Scale(KRINV, KDot(a, x, |x|))) && Within(r, 1664)
  {
    hide KSame, KHat, CongSeq, Scale, Base, KDot, Plus, KZetaTable;
    var acc := PolyBaseMul(a[0], v[0], z);
    KDotFirst(a, x, acc, v[0]);
    for i := 1 to |a|
      invariant KSame(acc, Scale(KRINV, KDot(a, x, i))) && Within(acc, i * 3540)
    {
      var t := PolyBaseMul(a[i], v[i], z);
      KDotNext(a, x, i, acc, t, v[i]);
      KWithinPlus(acc, t, i * 3540, 3540);
      acc := KPolyAdd(acc, t);
    }
    WithinWider(acc, |a| * 3540, 0x7fff);
    r := KPolyReduce(acc);
    KSameTrans(r, acc, Scale(KRINV, KDot(a, x, |x|)));
  }

  /** The inner product, back in the ring. */
  method InnerProduct(a: KVec, v: KVec, ghost x: KVec, z: seq<int>) returns (r: KPoly)
    requires 0 < |a| == |v| <= 4 && KTransformed(v, x) && KVecWithin(a, 4095) && KZetaTable(z)
    ensures |x| == |a| && KSame(r, Inner(a, x)) && Within(r, 1704)
  {
    hide KSame, KHat, KDot, KZetaTable, KUnhat, Within, Scale;
    var t := VecDot(a, v, x, z);
    WithinWider(t, 1664, KINV);
    r := KPolyInvNtt(t, z);
    KMontgomeryCancels(t, KDot(a, x, |x|), r);
  }

  // ------------------------------------------------------------ hashing and noise

  /** One absorption, one squeeze. */
  method OneShot(m: seq<byte>, rate: nat, pad: byte, len: nat) returns (h: seq<byte>)
    requires KeccakSponge.ValidRate(rate)
    ensures h == KeccakSponge.Sponge(m, rate, pad, len)
  {
    hide KeccakSponge.RmblKeccak.Valid, KeccakSponge.Stream, KeccakSponge.Absorbed;
    var st := new KeccakSponge.RmblKeccak(rate, pad);
    st.Absorb(m);
    st.Finalize();
    h := st.Squeeze(len);
    assert [] + m == m;
  }

  /** n bits counted at the cursor. */
  method CountBits(buf: seq<byte>, pos: nat, n: nat) returns (c: nat)
    requires n > 0 ==> (pos + n - 1) / 8 < |buf|
    ensures c == OnesIn(buf, pos, n)
  {
    c := 0;
    for b := 0 to n
      invariant c == OnesIn(buf, pos, b)
    {
      c := c + B2I(StreamBit(buf, pos + b));
    }
  }

  method SampleCbd(buf: seq<byte>, eta: nat) returns (p: KPoly)
    requires (eta == 2 || eta == 3) && |buf| == 64 * eta
    ensures p == Cbd(buf, eta)
  {
    hide OnesIn;
    var s: seq<int> := [];
    var bit := 0;
    for i := 0 to 256
      invariant |s| == i && bit == 2 * eta * i && forall k | 0 <= k < i :: s[k] == CbdAt(buf, eta, k)
    {
      NoiseFits(eta, i);
      var x := CountBits(buf, bit, eta);
      var y := CountBits(buf, bit + eta, eta);
      s := s + [x as int - y];
      assert 2 * eta * (i + 1) == bit + 2 * eta;
      bit := bit + 2 * eta;
    }
    p := s;
  }

  method PrfCbd(sigma: seq<byte>, nonce: nat, eta: nat) returns (p: KPoly)
    requires (eta == 2 || eta == 3) && nonce < 256
    ensures p == Noise(sigma, nonce, eta) && Within(p, 3)
  {
    hide KeccakSponge.Sponge, Cbd;
    var buf := OneShot(sigma + [nonce], 136, 0x1f, 64 * eta);
    p := SampleCbd(buf, eta);
    NoiseRange(buf, eta);
  }

  lemma NoiseRange(buf: seq<byte>, eta: nat)
    requires (eta == 2 || eta == 3) && |buf| == 64 * eta
    ensures Within(Cbd(buf, eta), 3)
  {
    assert InK(Cbd(buf, eta), -(eta as int), eta);
  }

  method PrfVec(sigma: seq<byte>, from: nat, n: nat, eta: nat) returns (v: KVec)
    requires (eta == 2 || eta == 3) && from + n <= 256
    ensures v == NoiseVec(sigma, from, n, eta) && KVecWithin(v, 3)
  {
    hide Noise, Within;
    v := [];
    for i := 0 to n
      invariant |v| == i && forall k | 0 <= k < i :: v[k] == Noise(sigma, from + k, eta) && Within(v[k], 3)
    {
      var p := PrfCbd(sigma, from + i, eta);
      v := v + [p];
    }
  }

  method DrawCoins(p: KemParams, coins: seq<byte>) returns (c: Coins)
    ensures c == CoinsOf(p, coins) && KVecWithin(c.r, 3) && KVecWithin(c.e1, 3) && Within(c.e2, 3)
  {
    hide Noise, Within;
    var r := PrfVec(coins, 0, p.K(), p.Eta1());
    var e1 := PrfVec(coins, p.K(), p.K(), 2);
    var e2 := PrfCbd(coins, 2 * p.K(), 2);
    c := Coins(r, e1, e2);
  }

  // ------------------------------------------------------------ encodings

  /** ByteDecode_12 of k polynomials. */
  method DecodeVec(s: seq<byte>, k: nat) returns (v: KVec)
    requires |s| == k * 384
    ensures v == Decode12(s, k) && KVecWithin(v, 4095)
  {
    hide UnpackBits, Within;
    v := [];
    for i := 0 to k
      invariant |v| == i
      invariant forall j | 0 <= j < i :: v[j] == Decode12(s, k)[j] && Within(v[j], 4095)
    {
      BlockIn(i, k, 384);
      BlockEnds(i, 384);
      var t := ReadFields(s[i * 384..(i + 1) * 384], 12);
      FieldRange12(s[i * 384..(i + 1) * 384]);
      v := v + [t];
    }
  }

  lemma FieldRange12(s: seq<byte>)
    requires |s| == 384
    ensures Within(UnpackBits(s, 12, 256), 4095)
  {
    Pow2Values();
  }

  /** The modulus check. */
  method CheckKey(t: KVec) returns (canonical: bool)
    requires forall i, j | 0 <= i < |t| && 0 <= j < 256 :: 0 <= t[i][j]
    ensures canonical == CanonicalKey(t)
  {
    for i := 0 to |t|
      invariant forall k | 0 <= k < i :: InK(t[k], 0, KQ - 1)
    {
      for j := 0 to 256
        invariant forall k | 0 <= k < j :: 0 <= t[i][k] <= KQ - 1
      {
        if t[i][j] >= KQ {
          assert !InK(t[i], 0, KQ - 1);
          return false;
        }
      }
    }
    return true;
  }

  lemma Decode12Positive(s: seq<byte>, k: nat)
    requires |s| == k * 384
    ensures forall i, j | 0 <= i < k && 0 <= j < 256 :: 0 <= Decode12(s, k)[i][j]
  {
    hide UnpackBits;
  }

  /** Compressed and packed. */
  method EncodePoly(a: KPoly, d: Width, ghost v: KPoly) returns (s: seq<byte>)
    requires Within(a, 0x7fff) && KCanon(a) == KCanon(v)
    ensures s == EncodeV(KCanon(v), d)
  {
    hide CompressCode, Compress;
    var c: seq<int> := [];
    for j := 0 to 256
      invariant |c| == j && forall k | 0 <= k < j :: c[k] == Compress(KCanon(v)[k], d)
    {
      CompressCodeIs(a[j], d);
      assert KCanon(a)[j] == a[j] % KQ;
      c := c + [CompressCode(a[j], d)];
    }
    assert c == CompressPoly(KCanon(v), d);
    assert Digits(c, Pow2(d));
    s := WriteFields(c, d);
  }

  /** The ciphertext's fields, decompressed. */
  method DecompressFields(s: seq<byte>, d: Width) returns (a: KPoly)
    requires |s| == 32 * d
    ensures a == DecompressPoly(UnpackBits(s, d, 256), d) && Within(a, KQ)
  {
    hide UnpackBits, Decompress;
    var c := ReadFields(s, d);
    var t: seq<int> := [];
    for j := 0 to 256
      invariant |t| == j && forall k | 0 <= k < j :: t[k] == Decompress(c[k], d) && 0 <= t[k] < KQ
    {
      FieldBelow(s, d, j);
      DecompressRange(c[j], d);
      t := t + [Decompress(c[j], d)];
    }
    a := t;
  }

  lemma FieldBelow(s: seq<byte>, d: Width, j: nat)
    requires |s| == 32 * d && j < 256
    ensures 0 <= UnpackBits(s, d, 256)[j] < Levels(d)
  {
  }

  /** A message bit becomes 0 or (q + 1) / 2. */
  method PolyFromMsg(m: seq<byte>) returns (a: KPoly)
    requires |m| == 32
    ensures a == FromMsg(m) && Within(a, 1665)
  {
    var s: seq<int> := [];
    for i := 0 to 32
      invariant |s| == 8 * i && forall k | 0 <= k < 8 * i :: s[k] == if StreamBit(m, k) then (KQ + 1) / 2 else 0
    {
      for j := 0 to 8
        invariant |s| == 8 * i + j
        invariant forall k | 0 <= k < 8 * i + j :: s[k] == if StreamBit(m, k) then (KQ + 1) / 2 else 0
      {
        assert (8 * i + j) / 8 == i && (8 * i + j) % 8 == j;
        s := s + [if BitOf(m[i], j) then (KQ + 1) / 2 else 0];
      }
    }
    a := s;
  }

  // ------------------------------------------------------------ K-PKE

  method ExpandRow(p: KemParams, env: KemEnv, rho: seq<byte>, i: nat) returns (row: KVec)
    requires env.Valid()
    ensures row == MatrixRow(p, env, rho, i) && KVecWithin(row, 4095)
  {
    row := [];
    for j := 0 to p.K()
      invariant |row| == j && forall k | 0 <= k < j :: row[k] == env.uniform(rho, i, k)
    {
      row := row + [env.uniform(rho, i, j)];
    }
    forall k | 0 <= k < |row| ensures Within(row[k], 4095) { assert InK(env.uniform(rho, i, k), 0, KQ - 1); }
  }

  lemma RowSame(x: KPoly, y: KPoly, e: KPoly, r: KPoly)
    requires KSame(x, y) && KSame(r, Plus(x, e))
    ensures KCanon(r) == KCanon(Plus(y, e))
  {
    hide KSame, KCanon, Plus;
    KSameRefl(e);
    KSamePlus(x, y, e, e);
    KSameTrans(r, Plus(x, e), Plus(y, e));
    KCanonUnique(r, Plus(y, e));
  }

  /** One row of u: inner product, noise, reduction. */
  method EncryptPoly(row: KVec, rh: KVec, ghost r: KVec, e: KPoly, z: seq<int>) returns (u: KPoly)
    requires 0 < |row| == |rh| <= 4 && KTransformed(rh, r) && KVecWithin(row, 4095) && KZetaTable(z) && Within(e, 3400)
    ensures |r| == |row| && KCanon(u) == KCanon(Plus(Inner(row, r), e)) && Within(u, 1664)
  {
    hide KSame, KTransformed, KZetaTable, KVecWithin, Within, Inner, KCanon, Plus;
    var x := InnerProduct(row, rh, r, z);
    KWithinPlus(x, e, 1704, 3400);
    var y := KPolyAdd(x, e);
    WithinWider(y, 5104, 0x7fff);
    u := KPolyReduce(y);
    RowSame(x, Inner(row, r), e, u);
  }

  method EncryptAllU(p: KemParams, env: KemEnv, rho: seq<byte>, rh: KVec, ghost r: KVec, e1: KVec, z: seq<int>)
    returns (s: seq<byte>)
    requires env.Valid() && |rh| == |r| == |e1| == p.K() && KTransformed(rh, r) && KVecWithin(e1, 3) && KZetaTable(z)
    ensures s == EncodeU(EncryptU(p, env, rho, r, e1), p.Du())
  {
    hide KTransformed, KZetaTable, Within, Inner, KCanon, EncodeV, KemEnv.Valid, MatrixRow, EncodeU, EncryptRow;
    s := [];
    ghost var u := EncryptU(p, env, rho, r, e1);
    EncodeEnds(u, p.Du());
    for i := 0 to p.K()
      invariant s + EncodeU(u[i..], p.Du()) == EncodeU(u, p.Du())
    {
      var row := ExpandRow(p, env, rho, i);
      WithinWider(e1[i], 3, 3400);
      var x := EncryptPoly(row, rh, r, e1[i], z);
      EncryptRowIs(row, r, e1[i]);
      WithinWider(x, 1664, 0x7fff);
      var t := EncodePoly(x, p.Du(), Plus(Inner(row, r), e1[i]));
      EncodeTail(u, i, p.Du());
      s := s + t;
    }
  }

  lemma EncryptRowIs(row: KVec, r: KVec, e: KPoly)
    requires |row| == |r|
    ensures EncryptRow(row, r, e) == KCanon(Plus(Inner(row, r), e))
  {
  }

  lemma EncodeTail(u: KVec, i: nat, d: Width)
    requires i < |u|
    ensures EncodeU(u[i..], d) == EncodeV(u[i], d) + EncodeU(u[i + 1..], d)
  {
    assert u[i..][1..] == u[i + 1..];
  }

  lemma EncodeEnds(u: KVec, d: Width)
    ensures u[0..] == u && EncodeU(u[|u|..], d) == []
  {
  }

  lemma PlusRegroup(a: KPoly, b: KPoly, c: KPoly)
    ensures Plus(Plus(a, b), c) == Plus(a, Plus(b, c))
  {
  }

  /** v: inner product, noise and message. */
  method EncryptPolyV(t: KVec, rh: KVec, ghost r: KVec, e2: KPoly, m: seq<byte>, z: seq<int>) returns (v: KPoly)
    requires 0 < |t| == |rh| <= 4 && KTransformed(rh, r) && KVecWithin(t, 4095) && KZetaTable(z) && Within(e2, 3) &&
      |m| == 32
    ensures |r| == |t| && KCanon(v) == EncryptV(t, r, e2, m) && Within(v, 1664)
  {
    hide KSame, KTransformed, KZetaTable, KVecWithin, Within, Inner, KCanon, Plus, FromMsg;
    var x := InnerProduct(t, rh, r, z);
    KWithinPlus(x, e2, 1704, 3);
    var y := KPolyAdd(x, e2);
    var mp := PolyFromMsg(m);
    KWithinPlus(y, mp, 1707, 1665);
    var w := KPolyAdd(y, mp);
    WithinWider(w, 3372, 0x7fff);
    v := KPolyReduce(w);
    PlusRegroup(x, e2, mp);
    PlusRegroup(Inner(t, r), e2, mp);
    RowSame(x, Inner(t, r), Plus(e2, mp), v);
  }

  /** K-PKE.Encrypt; `bad` reports a key that is not canonical, and the caller's zeroed buffer
      is then left as it was. */
  method PkeEncrypt(p: KemParams, env: KemEnv, ek: seq<byte>, m: seq<byte>, coins: seq<byte>)
    returns (bad: bool, ct: seq<byte>)
    requires env.Valid() && |ek| == p.EkBytes() && |m| == 32
    ensures bad == !CanonicalKey(EkT(p, ek)) && (!bad ==> ct == Encrypt(p, env, ek, m, CoinsOf(p, coins)))
    ensures |ct| == p.CtBytes()
  {
    hide KZetaTable, Within, EncryptV, EncryptU, EncodeU, EncodeV, CoinsOf, KemEnv.Valid, Decode12;
    var n := p.K() * 384;
    var t := DecodeVec(ek[..n], p.K());
    Decode12Positive(ek[..n], p.K());
    var canonical := CheckKey(t);
    if !canonical { return true, seq<byte>(p.CtBytes(), _ => 0); }
    var z := BuildKZetas();
    var c := DrawCoins(p, coins);
    VecWiderK(c.r, 3, KQ);
    var rh := KVecNtt(c.r, z);
    KTransformedLength(rh, c.r);
    var s := EncryptAllU(p, env, ek[n..], rh, c.r, c.e1, z);
    var v := EncryptPolyV(t, rh, c.r, c.e2, m, z);
    WithinWider(v, 1664, 0x7fff);
    var b := EncodeCanon(v, p.Dv(), EncryptV(t, c.r, c.e2, m));
    bad, ct := false, s + b;
    assert ct == Encrypt(p, env, ek, m, CoinsOf(p, coins));
  }

  lemma VecWiderK(v: KVec, x: int, y: int)
    requires KVecWithin(v, x) && x <= y
    ensures KVecWithin(v, y)
  {
    forall i | 0 <= i < |v| ensures Within(v[i], y) { WithinWider(v[i], x, y); }
  }

  lemma KTransformedLength(v: KVec, x: KVec)
    requires KTransformed(v, x)
    ensures |v| == |x|
  {
  }

  method EncodeCanon(a: KPoly, d: Width, ghost v: KPoly) returns (s: seq<byte>)
    requires Within(a, 0x7fff) && KCanon(a) == v
    ensures s == EncodeV(v, d)
  {
    hide Within, EncodeV;
    CanonTwice(a);
    s := EncodePoly(a, d, v);
  }

  lemma CanonTwice(a: KPoly)
    ensures KCanon(KCanon(a)) == KCanon(a)
  {
    forall i | 0 <= i < 256 ensures (a[i] % KQ) % KQ == a[i] % KQ { DivModUnique(a[i] % KQ, KQ, 0, a[i] % KQ); }
  }

  /** u of the ciphertext, decompressed. */
  method ReadU(p: KemParams, ct: seq<byte>) returns (u: KVec)
    requires |ct| == p.CtBytes()
    ensures |u| == p.K() && KVecWithin(u, KQ) &&
      forall i | 0 <= i < |u| :: u[i] == DecompressPoly(CtU(p, ct)[i], p.Du())
  {
    hide Within, DecompressPoly, UnpackBits;
    u := [];
    for i := 0 to p.K()
      invariant |u| == i
      invariant forall k | 0 <= k < i :: Within(u[k], KQ) && u[k] == DecompressPoly(CtU(p, ct)[k], p.Du())
    {
      BlockIn(i, p.K(), p.UBytes());
      BlockEnds(i, p.UBytes());
      var t := DecompressFields(ct[i * p.UBytes()..(i + 1) * p.UBytes()], p.Du());
      u := u + [t];
    }
  }

  lemma ResidualSame(v: KPoly, w: KPoly, y: KPoly, r: KPoly)
    requires KSame(w, y) && KSame(r, Plus(v, Negated(w)))
    ensures KCanon(r) == KCanon(Plus(v, Negated(y)))
  {
    hide Cong;
    forall i | 0 <= i < 256 ensures Cong(Plus(v, Negated(w))[i], Plus(v, Negated(y))[i], KQ) {
      CongRefl(v[i], KQ);
      CongSub(v[i], v[i], w[i], y[i], KQ);
    }
    hide KSame;
    SameOf(Plus(v, Negated(w)), Plus(v, Negated(y)));
    KSameTrans(r, Plus(v, Negated(w)), Plus(v, Negated(y)));
    KCanonUnique(r, Plus(v, Negated(y)));
  }

  lemma SameOf(a: KPoly, b: KPoly)
    requires forall i | 0 <= i < 256 :: Cong(a[i], b[i], KQ)
    ensures KSame(a, b)
  {
  }

  lemma KWithinMinus(a: KPoly, b: KPoly, x: int, y: int)
    requires Within(a, x) && Within(b, y) && 0 <= x + y < 0x8000
    ensures Within(Plus(a, Negated(b)), x + y) && forall i | 0 <= i < 256 :: -0x8000 <= a[i] - b[i] < 0x8000
  {
  }

  /** v - s . u, reduced. */
  method DecryptPoly(s: KVec, u: KVec, v: KPoly, z: seq<int>) returns (w: KPoly)
    requires 0 < |s| == |u| <= 4 && KVecWithin(s, 4095) && KVecWithin(u, KQ) && Within(v, KQ) && KZetaTable(z)
    ensures KCanon(w) == KCanon(Plus(v, Negated(Inner(s, u)))) && Within(w, 1664)
  {
    hide KSame, KZetaTable, KVecWithin, Within, Inner, KCanon, Plus;
    var uh := KVecNtt(u, z);
    KTransformedLength(uh, u);
    var x := InnerProduct(s, uh, u, z);
    KWithinMinus(v, x, KQ, 1704);
    var y := KPolySub(v, x);
    WithinWider(y, KQ + 1704, 0x7fff);
    w := KPolyReduce(y);
    ResidualSame(v, x, Inner(s, u), w);
  }

  /** K-PKE.Decrypt. */
  method PkeDecrypt(p: KemParams, dk: seq<byte>, ct: seq<byte>) returns (m: seq<byte>)
    requires |dk| == p.K() * 384 && |ct| == p.CtBytes()
    ensures m == Decrypt(p, dk, ct)
  {
    hide KZetaTable, Within, Inner, KCanon, Decode12, DecompressPoly, UnpackBits, CompressPoly, PackBits, CtU;
    var u := ReadU(p, ct);
    var v := DecompressFields(ct[p.K() * p.UBytes()..], p.Dv());
    var s := DecodeVec(dk, p.K());
    var z := BuildKZetas();
    var w := DecryptPoly(s, u, v, z);
    assert u == seq<KPoly>(p.K(), i requires 0 <= i < p.K() => DecompressPoly(CtU(p, ct)[i], p.Du()));
    assert KCanon(w) == Residual(p, dk, ct);
    WithinWider(w, 1664, 0x7fff);
    m := EncodeCanon(w, 1, Residual(p, dk, ct));
  }

  // ------------------------------------------------------------ the Fujisaki-Okamoto tail

  lemma XorIsZero(a: byte, b: byte)
    ensures (forall k | 0 <= k < 8 :: !Xor(ByteBits(a), ByteBits(b))[k]) <==> a == b
  {
    if forall k | 0 <= k < 8 :: !Xor(ByteBits(a), ByteBits(b))[k] {
      assert ByteBits(a) == ByteBits(b) by {
        forall k | 0 <= k < 8 ensures ByteBits(a)[k] == ByteBits(b)[k] { assert !Xor(ByteBits(a), ByteBits(b))[k]; }
      }
      ByteRoundTrip(a);
      ByteRoundTrip(b);
    }
  }

  /** Zero exactly when nothing differed and the re-encryption did not fail. */
  method Difference(ct2: seq<byte>, ct: seq<byte>, bad: bool) returns (diff: BitSeq)
    requires |ct2| == |ct|
    ensures |diff| == 8 && ((forall k | 0 <= k < 8 :: !diff[k]) <==> !bad && ct2 == ct)
  {
    hide ByteBits;
    diff := Zeros(8)[0 := bad];
    assert bad ==> diff[0];
    assert ct2[..0] == ct[..0];
    for i := 0 to |ct|
      invariant |diff| == 8 && ((forall k | 0 <= k < 8 :: !diff[k]) <==> !bad && ct2[..i] == ct[..i])
    {
      XorIsZero(ct2[i], ct[i]);
      DifferenceStep(diff, Xor(ByteBits(ct2[i]), ByteBits(ct[i])));
      assert ct2[..i + 1] == ct2[..i] + [ct2[i]] && ct[..i + 1] == ct[..i] + [ct[i]];
      diff := Or(diff, Xor(ByteBits(ct2[i]), ByteBits(ct[i])));
    }
    assert ct2[..|ct|] == ct2 && ct[..|ct|] == ct;
  }

  lemma DifferenceStep(a: BitSeq, b: BitSeq)
    requires |a| == |b| == 8
    ensures (forall k | 0 <= k < 8 :: !Or(a, b)[k]) <==>
      (forall k | 0 <= k < 8 :: !a[k]) && (forall k | 0 <= k < 8 :: !b[k])
  {
    if forall k | 0 <= k < 8 :: !Or(a, b)[k] {
      forall k | 0 <= k < 8 ensures !a[k] && !b[k] { assert !Or(a, b)[k]; }
    }
  }

  /** The bits folded down: bit 0 set when any bit was. */
  lemma FoldBits(d: BitSeq)
    requires |d| == 8
    ensures var a := Or(d, Shr(d, 4));
      var b := Or(a, Shr(a, 2));
      var c := Or(b, Shr(b, 1));
      !c[0] <==> forall k | 0 <= k < 8 :: !d[k]
  {
    var a := Or(d, Shr(d, 4));
    var b := Or(a, Shr(a, 2));
    var c := Or(b, Shr(b, 1));
    assert c[0] == (b[0] || b[1]);
    assert b[0] == (a[0] || a[2]) && b[1] == (a[1] || a[3]);
    assert a[0] == (d[0] || d[4]) && a[1] == (d[1] || d[5]) && a[2] == (d[2] || d[6]) && a[3] == (d[3] || d[7]);
  }

  function SelectByte(g: byte, k: byte, mask: BitSeq): byte
    requires |mask| == 8
  {
    BitsByte(Or(And(ByteBits(g), Not(mask)), And(ByteBits(k), mask)))
  }

  lemma SelectIs(g: byte, k: byte, b: bool)
    ensures SelectByte(g, k, if b then Ones(8) else Zeros(8)) == if b then k else g
  {
    if b {
      assert Or(And(ByteBits(g), Not(Ones(8))), And(ByteBits(k), Ones(8))) == ByteBits(k);
      ByteRoundTrip(k);
    } else {
      assert Or(And(ByteBits(g), Not(Zeros(8))), And(ByteBits(k), Zeros(8))) == ByteBits(g);
      ByteRoundTrip(g);
    }
  }

  /** shared = g when the re-encryption equals the ciphertext, K-bar otherwise; no branch. */
  method FoSelect(g: seq<byte>, kbar: seq<byte>, ct2: seq<byte>, ct: seq<byte>, bad: bool) returns (shared: seq<byte>)
    requires |g| == 64 && |kbar| == 32 && |ct2| == |ct|
    ensures shared == if !bad && ct2 == ct then g[..32] else kbar
  {
    hide SelectByte;
    var nz := Difference(ct2, ct, bad);
    FoldBits(nz);
    nz := Or(nz, Shr(nz, 4));
    nz := Or(nz, Shr(nz, 2));
    nz := Or(nz, Shr(nz, 1));
    var mask := if nz[0] then Ones(8) else Zeros(8);
    shared := [];
    for i := 0 to 32
      invariant |shared| == i && forall k | 0 <= k < i :: shared[k] == if nz[0] then kbar[k] else g[k]
    {
      SelectIs(g[i], kbar[i], nz[0]);
      shared := shared + [SelectByte(g[i], kbar[i], mask)];
    }
  }

  /** ML-KEM.Decaps_internal, as the code runs it. */
  method Decapsulate(p: KemParams, env: KemEnv, dk: seq<byte>, ct: seq<byte>) returns (shared: seq<byte>)
    requires env.Valid() && |dk| == p.DkBytes() && |ct| == p.CtBytes()
    ensures shared == Decaps(p, env, dk, ct)
  {
    hide KemEnv.Valid, Decrypt, EkT, CanonicalKey, Encrypt, CoinsOf, KeccakSponge.Sponge;
    var m := PkeDecrypt(p, DkSecret(p, dk), ct);
    var g := OneShot(m + DkHash(p, dk), 72, 0x06, 64);
    var kbar := OneShot(DkZ(p, dk) + ct, 136, 0x1f, 32);
    var bad, ct2 := PkeEncrypt(p, env, DkEk(p, dk), m, g[32..]);
    shared := FoSelect(g, kbar, ct2, ct, bad);
  }
}
