/** Masked ML-KEM decapsulation, proved to return what Decaps does for every key, ciphertext
    and random stream. */
module MlKemMasked {
  import opened ModArith
  import opened Bits
  import opened Radix
  import opened BitCursor
  import opened NttTree
  import opened NttLoop
  import opened MlKemArith
  import opened MlKemNtt
  import opened MlKemRing
  import opened MlKemCompress
  import opened MlKemScheme
  import opened MlKemPlain
  import opened MaskedGadgets
  import opened MaskedConversions
  import opened MaskedNoise
  import KeccakSponge
  import MaskedKeccak

  /** Two canonical polynomials that add up to v mod q. */
  ghost predicate KShares(a0: KPoly, a1: KPoly, v: KPoly) {
    InK(a0, 0, KQ - 1) && InK(a1, 0, KQ - 1) && KSame(Plus(a0, a1), v)
  }

  ghost predicate KSharesVec(m0: KVec, m1: KVec, v: KVec) {
    |m0| == |m1| == |v| && forall i | 0 <= i < |v| :: KShares(m0[i], m1[i], v[i])
  }

  lemma KSharesRange(m0: KVec, m1: KVec, v: KVec)
    requires KSharesVec(m0, m1, v)
    ensures KVecWithin(m0, KQ) && KVecWithin(m1, KQ) && KVecWithin(m0, 4095) && KVecWithin(m1, 4095)
  {
    hide KSame;
    forall i | 0 <= i < |v|
      ensures Within(m0[i], KQ) && Within(m1[i], KQ) && Within(m0[i], 4095) && Within(m1[i], 4095)
    {
      assert KShares(m0[i], m1[i], v[i]);
    }
  }

  // ------------------------------------------------------------ canonical form and splitting

  lemma KCanonShares(x0: KPoly, x1: KPoly, v: KPoly)
    requires KSame(Plus(x0, x1), v)
    ensures KShares(KCanon(x0), KCanon(x1), v)
  {
    hide KSame, Plus;
    KCanonSame(x0);
    KCanonSame(x1);
    KSamePlus(KCanon(x0), x0, KCanon(x1), x1);
    KSameTrans(Plus(KCanon(x0), KCanon(x1)), Plus(x0, x1), v);
  }

  lemma KSplitScalar(v: int, r: int)
    requires 0 <= r < KQ
    ensures var s := CaddMod(v % KQ - r, KQ);
      0 <= s < KQ && Cong(r + s, v, KQ)
  {
    CongMod(v, KQ);
    var s := CaddMod(v % KQ - r, KQ);
    CongIntro(r + s, v % KQ, KQ, if v % KQ < r then 1 else 0);
    CongTrans(r + s, v % KQ, v, KQ);
  }

  method KSplitPoly(v: KPoly, rng: Rng) returns (a0: KPoly, a1: KPoly)
    requires Within(v, 4095)
    modifies rng
    ensures KShares(a0, a1, v)
    ensures rng.pos == old(rng.pos) + 512
    ensures forall k | 0 <= k < 256 :: a0[k] == Residue64(rng, old(rng.pos) + 2 * k, KQ)
  {
    hide Cong, CaddMod, Barrett16, ToPositive, Residue64;
    var s: seq<int> := [];
    for i := 0 to 256
      invariant |s| == i && forall k | 0 <= k < i :: 0 <= s[k] < KQ
      invariant rng.pos == old(rng.pos) + 2 * i
      invariant forall k | 0 <= k < i :: s[k] == Residue64(rng, old(rng.pos) + 2 * k, KQ)
    {
      var r := RandMod(rng, KQ);
      s := s + [r];
    }
    var t: seq<int> := [];
    for i := 0 to 256
      invariant |t| == i && forall k | 0 <= k < i :: 0 <= t[k] < KQ && Cong(s[k] + t[k], v[k], KQ)
      invariant rng.pos == old(rng.pos) + 512
    {
      PositiveContract(v[i]);
      KSplitScalar(v[i], s[i]);
      t := t + [CaddMod(ToPositive(Barrett16(v[i])) - s[i], KQ)];
    }
    a0, a1 := s, t;
  }

  method SplitSecret(s: KVec, rng: Rng) returns (s0: KVec, s1: KVec)
    requires KVecWithin(s, 4095)
    modifies rng
    ensures KSharesVec(s0, s1, s)
  {
    hide Within, KShares;
    s0, s1 := [], [];
    for i := 0 to |s|
      invariant |s0| == |s1| == i && forall k | 0 <= k < i :: KShares(s0[k], s1[k], s[k])
    {
      var a, b := KSplitPoly(s[i], rng);
      s0, s1 := s0 + [a], s1 + [b];
    }
  }

  // ------------------------------------------------------------ linear maps on shares

  lemma KSwapMiddle(a: KPoly, a': KPoly, b: KPoly, b': KPoly)
    ensures Plus(Plus(a, a'), Plus(b, b')) == Plus(Plus(a, b), Plus(a', b'))
  {
  }

  /** An inner product is linear in its transformed argument. */
  lemma {:induction false} KDotRight(a: KVec, x0: KVec, x1: KVec, x: KVec, n: nat)
    requires KSharesVec(x0, x1, x) && n <= |x| && n <= |a|
    ensures KSame(Plus(KDot(a, x0, n), KDot(a, x1, n)), KDot(a, x, n))
  {
    hide KSame, KHat, Base, Plus;
    if n == 0 {
      KZeroSum();
    } else {
      var k := n - 1;
      assert KShares(x0[k], x1[k], x[k]);
      KDotRight(a, x0, x1, x, k);
      KHatPlus(x0[k], x1[k]);
      KHatSame(Plus(x0[k], x1[k]), x[k]);
      KSameRefl(a[k]);
      BaseSame(a[k], a[k], Plus(KHat(x0[k]), KHat(x1[k])), KHat(x[k]));
      BasePlus(KHat(x0[k]), KHat(x1[k]), a[k]);
      var u, v, u', v' := KDot(a, x0, k), KDot(a, x1, k), Base(a[k], KHat(x0[k])), Base(a[k], KHat(x1[k]));
      KSamePlus(Plus(u, v), KDot(a, x, k), Plus(u', v'), Base(a[k], KHat(x[k])));
      KSwapMiddle(u, u', v, v');
    }
  }

  lemma KZeroSum()
    ensures KSame(Plus(ZeroK(), ZeroK()), ZeroK())
  {
    assert Plus(ZeroK(), ZeroK()) == ZeroK();
    KSameRefl(ZeroK());
  }

  /** And in the other. */
  lemma {:induction false} KDotLeft(a0: KVec, a1: KVec, a: KVec, x: KVec, n: nat)
    requires KSharesVec(a0, a1, a) && n <= |x| && n <= |a|
    ensures KSame(Plus(KDot(a0, x, n), KDot(a1, x, n)), KDot(a, x, n))
  {
    hide KSame, KHat, Base, Plus;
    if n == 0 {
      KZeroSum();
    } else {
      var k := n - 1;
      assert KShares(a0[k], a1[k], a[k]);
      KDotLeft(a0, a1, a, x, k);
      KSameRefl(KHat(x[k]));
      BaseSame(Plus(a0[k], a1[k]), a[k], KHat(x[k]), KHat(x[k]));
      BasePlus(a0[k], a1[k], KHat(x[k]));
      var u, v, u', v' := KDot(a0, x, k), KDot(a1, x, k), Base(a0[k], KHat(x[k])), Base(a1[k], KHat(x[k]));
      KSamePlus(Plus(u, v), KDot(a, x, k), Plus(u', v'), Base(a[k], KHat(x[k])));
      KSwapMiddle(u, u', v, v');
    }
  }

  lemma KUnhatShares(d0: KPoly, d1: KPoly, d: KPoly)
    requires KSame(Plus(d0, d1), d)
    ensures KSame(Plus(KUnhat(d0), KUnhat(d1)), KUnhat(d))
  {
    hide KSame, Plus, KUnhat;
    KUnhatSame(Plus(d0, d1), d);
    KUnhatPlus(d0, d1);
  }

  lemma InnerRight(a: KVec, x0: KVec, x1: KVec, x: KVec)
    requires KSharesVec(x0, x1, x) && |a| == |x|
    ensures KSame(Plus(Inner(a, x0), Inner(a, x1)), Inner(a, x))
  {
    hide KSame, Plus, KUnhat, KDot;
    KDotRight(a, x0, x1, x, |x|);
    KUnhatShares(KDot(a, x0, |x|), KDot(a, x1, |x|), KDot(a, x, |x|));
  }

  lemma InnerLeft(a0: KVec, a1: KVec, a: KVec, x: KVec)
    requires KSharesVec(a0, a1, a) && |a| == |x|
    ensures KSame(Plus(Inner(a0, x), Inner(a1, x)), Inner(a, x))
  {
    hide KSame, Plus, KUnhat, KDot;
    KDotLeft(a0, a1, a, x, |x|);
    KUnhatShares(KDot(a0, x, |x|), KDot(a1, x, |x|), KDot(a, x, |x|));
  }

  // ------------------------------------------------------------ w = v - s.u

  lemma MinusShares(x0: KPoly, x1: KPoly, i0: KPoly, i1: KPoly, i: KPoly, v: KPoly)
    requires KSame(x0, i0) && KSame(x1, i1) && KSame(Plus(i0, i1), i)
    ensures KSame(Plus(Plus(v, Negated(x0)), Negated(x1)), Plus(v, Negated(i)))
  {
    KSamePlus(x0, i0, x1, i1);
    hide Cong;
    KSameTrans(Plus(x0, x1), Plus(i0, i1), i);
    forall j | 0 <= j < 256
      ensures Cong(Plus(Plus(v, Negated(x0)), Negated(x1))[j], Plus(v, Negated(i))[j], KQ)
    {
      assert Cong(Plus(x0, x1)[j], i[j], KQ);
      CongRefl(v[j], KQ);
      CongSub(v[j], v[j], x0[j] + x1[j], i[j], KQ);
    }
  }

  /** -x, coefficient by coefficient. */
  method NegatePoly(x: KPoly) returns (r: KPoly)
    requires Within(x, 0x7fff)
    ensures r == Negated(x) && Within(r, 0x7fff)
  {
    var s: seq<int16> := [];
    for j := 0 to 256
      invariant |s| == j && forall k | 0 <= k < j :: s[k] == -x[k]
    {
      s := s + [-x[j]];
    }
    r := s;
  }

  /** v - a . u, canonical. */
  method MinusProduct(a: KVec, uh: KVec, ghost u: KVec, v: KPoly, z: seq<int>) returns (w: KPoly, ghost x: KPoly)
    requires 0 < |a| == |uh| <= 4 && KTransformed(uh, u) && KVecWithin(a, 4095) && Within(v, KQ) && KZetaTable(z)
    ensures |u| == |a| && KSame(x, Inner(a, u)) && w == KCanon(Plus(v, Negated(x)))
  {
    hide KSame, KZetaTable, KVecWithin, Within, Inner, KCanon, Plus, KTransformed;
    var t := InnerProduct(a, uh, u, z);
    KWithinMinus(v, t, KQ, 1704);
    var y := KPolySub(v, t);
    WithinWider(y, KQ + 1704, 0x7fff);
    w := CanonPoly(y);
    x := t;
  }

  /** -(a . u), canonical. */
  method NegatedProduct(a: KVec, uh: KVec, ghost u: KVec, z: seq<int>) returns (w: KPoly, ghost x: KPoly)
    requires 0 < |a| == |uh| <= 4 && KTransformed(uh, u) && KVecWithin(a, 4095) && KZetaTable(z)
    ensures |u| == |a| && KSame(x, Inner(a, u)) && w == KCanon(Negated(x))
  {
    hide KSame, KZetaTable, KVecWithin, Within, Inner, KCanon, KTransformed;
    var t := InnerProduct(a, uh, u, z);
    WithinWider(t, 1704, 0x7fff);
    var y := NegatePoly(t);
    w := CanonPoly(y);
    x := t;
  }

  /** Shares of v - s . u, the shares of s multiplied one at a time. */
  method MaskedResidual(s0: KVec, s1: KVec, ghost s: KVec, u: KVec, v: KPoly, z: seq<int>)
    returns (w0: KPoly, w1: KPoly)
    requires KSharesVec(s0, s1, s) && 0 < |s| == |u| <= 4 && KVecWithin(u, KQ) && Within(v, KQ) && KZetaTable(z)
    ensures KShares(w0, w1, KCanon(Plus(v, Negated(Inner(s, u)))))
  {
    KSharesRange(s0, s1, s);
    assert |s0| == |s1| == |s|;
    hide *;
    var uh := KVecNtt(u, z);
    KTransformedLength(uh, u);
    ghost var x0, x1;
    w0, x0 := MinusProduct(s0, uh, u, v, z);
    w1, x1 := NegatedProduct(s1, uh, u, z);
    ResidualOfShares(s0, s1, s, u, v, x0, x1);
  }

  lemma ResidualOfShares(s0: KVec, s1: KVec, s: KVec, u: KVec, v: KPoly, x0: KPoly, x1: KPoly)
    requires KSharesVec(s0, s1, s) && |s| == |u|
    requires |s0| == |s1| == |u| && KSame(x0, Inner(s0, u)) && KSame(x1, Inner(s1, u))
    ensures KShares(KCanon(Plus(v, Negated(x0))), KCanon(Negated(x1)), KCanon(Plus(v, Negated(Inner(s, u)))))
  {
    hide KSame, Inner, KCanon, Plus, KShares, Negated;
    InnerLeft(s0, s1, s, u);
    hide KSharesVec;
    MinusShares(x0, x1, Inner(s0, u), Inner(s1, u), Inner(s, u), v);
    var y0, y1, t := Plus(v, Negated(x0)), Negated(x1), Plus(v, Negated(Inner(s, u)));
    KCanonSame(t);
    KSameTrans(Plus(y0, y1), t, KCanon(t));
    KCanonShares(y0, y1, KCanon(t));
  }

  // ------------------------------------------------------------ message bits

  /** Four bytes of a word, low byte first. */
  function WordBytes(w: Word): (b: seq<byte>)
    ensures |b| == 4 && forall t | 0 <= t < 4 :: b[t] == BitsByte(w[8 * t..8 * t + 8])
  {
    [BitsByte(w[0..8]), BitsByte(w[8..16]), BitsByte(w[16..24]), BitsByte(w[24..32])]
  }

  lemma WordBytesBit(w: Word, k: nat)
    requires k < 32
    ensures StreamBit(WordBytes(w), k) == w[k]
  {
    var t := k / 8;
    ToNatBit(w[8 * t..8 * t + 8], k % 8);
  }

  lemma WordBytesXor(a: Word, b: Word)
    ensures XorBytes(WordBytes(a), WordBytes(b)) == WordBytes(Xor(a, b))
  {
    hide XorByte, BitsByte, Xor;
    forall t | 0 <= t < 4 ensures XorBytes(WordBytes(a), WordBytes(b))[t] == WordBytes(Xor(a, b))[t] {
      ByteXorBits(a[8 * t..8 * t + 8], b[8 * t..8 * t + 8]);
      XorSlice(a, b, 8 * t);
    }
  }

  lemma XorSlice(a: Word, b: Word, i: nat)
    requires i + 8 <= 32
    ensures Xor(a[i..i + 8], b[i..i + 8]) == Xor(a, b)[i..i + 8]
  {
  }

  lemma ByteXorBits(a: BitSeq, b: BitSeq)
    requires |a| == |b| == 8
    ensures XorByte(BitsByte(a), BitsByte(b)) == BitsByte(Xor(a, b))
  {
    MaskedKeccak.BitsByteBits(a);
    MaskedKeccak.BitsByteBits(b);
  }

  /** The message word of group g: the secrets of a share. */
  ghost predicate MessageWord(o: Share, w: KPoly, g: nat)
    requires g < 8
  {
    forall j | 0 <= j < LANES :: o.Bit(j) == (833 <= w[32 * g + j] <= 2496)
  }

  /** One polynomial's message bits, as eight shared words. */
  method DecodeWords(w0: KPoly, w1: KPoly, ghost w: KPoly, rng: Rng) returns (mw: seq<Share>)
    requires KShares(w0, w1, w) && InK(w, 0, KQ - 1)
    modifies rng
    ensures |mw| == 8 && forall g | 0 <= g < 8 :: MessageWord(mw[g], w, g)
  {
    hide KSame, MessageWord;
    mw := [];
    for g := 0 to 8
      invariant |mw| == g && forall h | 0 <= h < g :: MessageWord(mw[h], w, h)
    {
      var o := SecDecode1(w0[32 * g..32 * g + 32], w1[32 * g..32 * g + 32], rng);
      MessageLanes(w0, w1, w, g, o);
      mw := mw + [o];
    }
  }

  lemma MessageLanes(w0: KPoly, w1: KPoly, w: KPoly, g: nat, o: Share)
    requires KShares(w0, w1, w) && InK(w, 0, KQ - 1) && g < 8
    requires forall j | 0 <= j < LANES :: o.Bit(j) ==
               (833 <= (w0[32 * g..32 * g + 32][j] + w1[32 * g..32 * g + 32][j]) % 3329 <= 2496)
    ensures MessageWord(o, w, g)
  {
    forall j | 0 <= j < LANES ensures o.Bit(j) == (833 <= w[32 * g + j] <= 2496) {
      SharesAt(w0, w1, w, 32 * g + j);
    }
  }

  lemma SharesAt(w0: KPoly, w1: KPoly, w: KPoly, i: nat)
    requires KShares(w0, w1, w) && i < 256
    ensures (w0[i] + w1[i]) % KQ == w[i] % KQ
    ensures 0 <= w[i] < KQ ==> (w0[i] + w1[i]) % KQ == w[i]
  {
    hide Cong;
    assert Cong(Plus(w0, w1)[i], w[i], KQ);
    CongSameMod(w0[i] + w1[i], w[i], KQ);
    if 0 <= w[i] < KQ { DivModUnique(w[i], KQ, 0, w[i]); }
  }

  /** The eight words as bytes, one share. */
  method WordsToBytes(mw: seq<Word>) returns (m: seq<byte>)
    ensures m == FlatWords(mw)
  {
    hide WordBytes;
    m := [];
    FlatNone(mw);
    for g := 0 to |mw|
      invariant m == FlatWords(mw[..g])
    {
      FlatNext(mw, g);
      m := m + WordBytes(mw[g]);
    }
    assert mw[..|mw|] == mw;
  }

  function FlatWords(mw: seq<Word>): (m: seq<byte>)
    ensures |m| == 4 * |mw|
    decreases |mw|
  {
    if mw == [] then [] else FlatWords(mw[..|mw| - 1]) + WordBytes(mw[|mw| - 1])
  }

  lemma FlatNone(mw: seq<Word>)
    ensures FlatWords(mw[..0]) == []
  {
  }

  lemma FlatNext(mw: seq<Word>, g: nat)
    requires g < |mw|
    ensures FlatWords(mw[..g + 1]) == FlatWords(mw[..g]) + WordBytes(mw[g])
  {
    assert mw[..g + 1][..g] == mw[..g];
  }

  lemma {:induction false} FlatBit(mw: seq<Word>, g: nat, k: nat)
    requires g < |mw| && k < 32
    ensures (32 * g + k) / 8 < |FlatWords(mw)| && StreamBit(FlatWords(mw), 32 * g + k) == mw[g][k]
    decreases |mw|
  {
    var n := |mw| - 1;
    var f := FlatWords(mw[..n]);
    assert (32 * g + k) / 8 == 4 * g + k / 8 && (32 * g + k) % 8 == k % 8;
    if g == n {
      WordBytesBit(mw[n], k);
    } else {
      FlatBit(mw[..n], g, k);
    }
  }

  lemma {:induction false} FlatXor(a: seq<Word>, b: seq<Word>, c: seq<Word>)
    requires |a| == |b| == |c| && forall g | 0 <= g < |a| :: c[g] == Xor(a[g], b[g])
    ensures XorBytes(FlatWords(a), FlatWords(b)) == FlatWords(c)
    decreases |a|
  {
    hide WordBytes, XorByte;
    if a != [] {
      var n := |a| - 1;
      FlatXor(a[..n], b[..n], c[..n]);
      WordBytesXor(a[n], b[n]);
      XorAppend(FlatWords(a[..n]), WordBytes(a[n]), FlatWords(b[..n]), WordBytes(b[n]));
    }
  }

  lemma XorAppend(a: seq<byte>, b: seq<byte>, c: seq<byte>, d: seq<byte>)
    requires |a| == |c| && |b| == |d|
    ensures XorBytes(a + b, c + d) == XorBytes(a, c) + XorBytes(b, d)
  {
    hide XorByte;
  }

  /** The unmasked words spell the decrypted message. */
  lemma MessageBytes(words: seq<Word>, w: KPoly)
    requires |words| == 8 && InK(w, 0, KQ - 1)
    requires forall g, j | 0 <= g < 8 && 0 <= j < 32 :: words[g][j] == (833 <= w[32 * g + j] <= 2496)
    ensures FlatWords(words) == EncodeV(w, 1)
  {
    hide WordBytes, FlatWords, Compress, PackBits;
    var f := CompressPoly(w, 1);
    var m: seq<byte> := FlatWords(words);
    var t: seq<byte> := PackBits(f, 1, 32 * 1);
    forall i | 0 <= i < 32 ensures m[i] == t[i] {
      forall b: nat | b < 8 ensures BitOf(m[i], b) == BitOf(t[i], b) {
        MessageBit(words, w, i, b);
      }
      SameByte(m[i], t[i]);
    }
  }

  lemma MessageBit(words: seq<Word>, w: KPoly, i: nat, b: nat)
    requires |words| == 8 && InK(w, 0, KQ - 1) && i < 32 && b < 8
    requires forall g, j | 0 <= g < 8 && 0 <= j < 32 :: words[g][j] == (833 <= w[32 * g + j] <= 2496)
    ensures BitOf(FlatWords(words)[i], b) == BitOf(PackBits(CompressPoly(w, 1), 1, 32)[i], b)
  {
    hide WordBytes, FlatWords, Compress, PackBits;
    var p := 8 * i + b;
    var g, j := p / 32, p % 32;
    FlatBit(words, g, j);
    assert 32 * g + j == p && p / 8 == i && p % 8 == b;
    BitOfCompressed(w[p]);
    var f := CompressPoly(w, 1);
    assert Digits(f, Pow2(1)) by { Pow2Values(); }
    PackedBit(f, 1, p, 0);
    assert p * 1 + 0 == p && 32 * 1 == 32;
    OneBitOf(f[p]);
  }

  // ------------------------------------------------------------ masked noise

  /** The first coefficients of a noise polynomial, on shares. */
  ghost predicate NoiseDone(s: seq<int>, t: seq<int>, x: seq<byte>, eta: nat) {
    (eta == 2 || eta == 3) && |x| == 64 * eta && |s| == |t| <= 256
    && forall k | 0 <= k < |s| :: 0 <= s[k] < KQ && 0 <= t[k] < KQ && Cong(s[k] + t[k], CbdAt(x, eta, k), KQ)
  }

  lemma NoiseMore(s: seq<int>, t: seq<int>, c0: seq<int>, c1: seq<int>, x: seq<byte>, eta: nat)
    requires NoiseDone(s, t, x, eta) && |s| + 32 <= 256 && Residues(c0, 3329) && Residues(c1, 3329)
    requires forall j | 0 <= j < LANES :: Cong(c0[j] + c1[j], CbdAt(x, eta, |s| + j), 3329)
    ensures NoiseDone(s + c0, t + c1, x, eta) && |s + c0| == |t + c1| == |s| + 32
  {
    hide CbdAt, Cong;
    forall k | |s| <= k < |s| + 32 ensures Cong(c0[k - |s|] + c1[k - |s|], CbdAt(x, eta, k), KQ) {
      var j := k - |s|;
      assert Cong(c0[j] + c1[j], CbdAt(x, eta, |s| + j), 3329);
    }
  }

  lemma NoiseNone(x: seq<byte>, eta: nat)
    requires (eta == 2 || eta == 3) && |x| == 64 * eta
    ensures NoiseDone([], [], x, eta)
  {
  }

  /** 256 coefficients from two shares of the PRF output. */
  method NoiseShares(b0: seq<byte>, b1: seq<byte>, eta: nat, rng: Rng) returns (p0: KPoly, p1: KPoly)
    requires (eta == 2 || eta == 3) && |b0| == |b1| == 64 * eta
    modifies rng
    ensures KShares(p0, p1, Cbd(XorBytes(b0, b1), eta))
  {
    hide *;
    ghost var x := XorBytes(b0, b1);
    var s: seq<int>, t: seq<int> := [], [];
    NoiseNone(x, eta);
    for g := 0 to 8
      invariant |s| == |t| == 32 * g && NoiseDone(s, t, x, eta)
    {
      var c0, c1 := SecCbd32(b0, b1, 32 * g, eta, rng);
      NoiseMore(s, t, c0, c1, x, eta);
      s, t := s + c0, t + c1;
    }
    p0, p1 := s, t;
    SharesOfNoise(p0, p1, x, eta);
  }

  /** Shares of one noise polynomial. */
  method MaskedPrfCbd(sig0: seq<byte>, sig1: seq<byte>, nonce: nat, eta: nat, rng: Rng) returns (p0: KPoly, p1: KPoly)
    requires |sig0| == |sig1| && (eta == 2 || eta == 3) && nonce < 256
    modifies rng
    ensures KShares(p0, p1, Noise(XorBytes(sig0, sig1), nonce, eta))
  {
    hide KeccakSponge.Sponge, Cbd, XorByte, KShares;
    var b0, b1 := MaskedKeccak.SpongeMasked(sig0 + [nonce], sig1 + [0], 64 * eta, 136, 0x1f, rng);
    XorPublicTail(sig0, sig1, [nonce], [0]);
    p0, p1 := NoiseShares(b0, b1, eta, rng);
    NoiseIs(XorBytes(sig0, sig1), nonce, eta, XorBytes(b0, b1));
  }

  lemma NoiseIs(sigma: seq<byte>, nonce: nat, eta: nat, x: seq<byte>)
    requires (eta == 2 || eta == 3) && nonce < 256 && x == KeccakSponge.Sponge(sigma + [nonce], 136, 0x1f, 64 * eta)
    ensures |x| == 64 * eta && Noise(sigma, nonce, eta) == Cbd(x, eta)
  {
    hide KeccakSponge.Sponge, Cbd;
  }

  lemma SharesOfNoise(p0: KPoly, p1: KPoly, x: seq<byte>, eta: nat)
    requires (eta == 2 || eta == 3) && |x| == 64 * eta && NoiseDone(p0, p1, x, eta)
    ensures KShares(p0, p1, Cbd(x, eta))
  {
    hide CbdAt, Cong;
    forall k | 0 <= k < 256 ensures Cong(Plus(p0, p1)[k], Cbd(x, eta)[k], KQ) { }
  }

  method MaskedNoiseVec(sig0: seq<byte>, sig1: seq<byte>, from: nat, n: nat, eta: nat, rng: Rng)
    returns (v0: KVec, v1: KVec)
    requires |sig0| == |sig1| && (eta == 2 || eta == 3) && from + n <= 256
    modifies rng
    ensures KSharesVec(v0, v1, NoiseVec(XorBytes(sig0, sig1), from, n, eta))
  {
    hide KShares, Noise;
    v0, v1 := [], [];
    ghost var v := NoiseVec(XorBytes(sig0, sig1), from, n, eta);
    for i := 0 to n
      invariant |v0| == |v1| == i && forall k | 0 <= k < i :: KShares(v0[k], v1[k], v[k])
    {
      var a, b := MaskedPrfCbd(sig0, sig1, from + i, eta, rng);
      v0, v1 := v0 + [a], v1 + [b];
    }
  }

  // ------------------------------------------------------------ re-encryption on shares

  lemma RowShares(x0: KPoly, x1: KPoly, i0: KPoly, i1: KPoly, i: KPoly, e0: KPoly, e1: KPoly, e: KPoly)
    requires KSame(x0, i0) && KSame(x1, i1) && KSame(Plus(i0, i1), i) && KSame(Plus(e0, e1), e)
    ensures KSame(Plus(Plus(x0, e0), Plus(x1, e1)), Plus(i, e))
  {
    hide KSame, Plus;
    KSamePlus(x0, i0, x1, i1);
    KSameTrans(Plus(x0, x1), Plus(i0, i1), i);
    KSamePlus(Plus(x0, x1), i, Plus(e0, e1), e);
    KSwapMiddle(x0, e0, x1, e1);
  }

  /** The inner product and the noise of one row, share by share. */
  method SumShares(row: KVec, r0h: KVec, r1h: KVec, e0: KPoly, e1: KPoly, z: seq<int>, ghost r0: KVec, ghost r1: KVec,
      ghost r: KVec, ghost e: KPoly) returns (y0: KPoly, y1: KPoly)
    requires 0 < |row| == |r0h| == |r1h| == |r| <= 4 && KTransformed(r0h, r0) && KTransformed(r1h, r1) &&
      KSharesVec(r0, r1, r)
    requires KVecWithin(row, 4095) && KZetaTable(z) && KShares(e0, e1, e)
    ensures KSame(Plus(y0, y1), Plus(Inner(row, r), e)) && Within(y0, 6000) && Within(y1, 6000)
  {
    WithinShares(e0, e1, e);
    hide KSame, KTransformed, KZetaTable, KVecWithin, Within, Inner, Plus, KShares;
    var x0 := InnerProduct(row, r0h, r0, z);
    KWithinPlus(x0, e0, 1704, KQ);
    y0 := KPolyAdd(x0, e0);
    WithinWider(y0, 1704 + KQ, 6000);
    var x1 := InnerProduct(row, r1h, r1, z);
    KWithinPlus(x1, e1, 1704, KQ);
    y1 := KPolyAdd(x1, e1);
    WithinWider(y1, 1704 + KQ, 6000);
    InnerRight(row, r0, r1, r);
    SharesSame(e0, e1, e);
    RowShares(x0, x1, Inner(row, r0), Inner(row, r1), Inner(row, r), e0, e1, e);
  }

  /** Canonical shares of the canonical value. */
  lemma CanonicalShares(y0: KPoly, y1: KPoly, t: KPoly)
    requires KSame(Plus(y0, y1), t)
    ensures KShares(KCanon(y0), KCanon(y1), KCanon(t))
  {
    hide KSame, Plus, KCanon, KShares;
    KCanonSame(t);
    KSameTrans(Plus(y0, y1), t, KCanon(t));
    KCanonShares(y0, y1, KCanon(t));
  }

  /** Shares of one row of the re-encryption. */
  method MaskedRow(row: KVec, r0h: KVec, r1h: KVec, e0: KPoly, e1: KPoly, z: seq<int>, ghost r0: KVec, ghost r1: KVec,
      ghost r: KVec, ghost e: KPoly) returns (u0: KPoly, u1: KPoly)
    requires 0 < |row| == |r0h| == |r1h| == |r| <= 4 && KTransformed(r0h, r0) && KTransformed(r1h, r1) &&
      KSharesVec(r0, r1, r)
    requires KVecWithin(row, 4095) && KZetaTable(z) && KShares(e0, e1, e)
    ensures KShares(u0, u1, EncryptRow(row, r, e))
  {
    hide KSame, KTransformed, KZetaTable, KVecWithin, Within, Inner, KCanon, Plus, KShares;
    var y0, y1 := SumShares(row, r0h, r1h, e0, e1, z, r0, r1, r, e);
    WithinWider(y0, 6000, 0x7fff);
    WithinWider(y1, 6000, 0x7fff);
    u0 := CanonPoly(y0);
    u1 := CanonPoly(y1);
    CanonicalShares(y0, y1, Plus(Inner(row, r), e));
  }

  lemma WithinShares(e0: KPoly, e1: KPoly, e: KPoly)
    requires KShares(e0, e1, e)
    ensures Within(e0, KQ) && Within(e1, KQ)
  {
    hide KSame;
  }

  lemma SharesSame(e0: KPoly, e1: KPoly, e: KPoly)
    requires KShares(e0, e1, e)
    ensures KSame(Plus(e0, e1), e)
  {
  }

  method MaskedU(p: KemParams, env: KemEnv, rho: seq<byte>, r0h: KVec, r1h: KVec, e10: KVec, e11: KVec, z: seq<int>,
      ghost r0: KVec, ghost r1: KVec, ghost r: KVec, ghost e1: KVec) returns (u0: KVec, u1: KVec)
    requires env.Valid() && |r0h| == |r1h| == |r| == p.K() && KTransformed(r0h, r0) && KTransformed(r1h, r1)
    requires KSharesVec(r0, r1, r) && KZetaTable(z) && |e1| == p.K() && KSharesVec(e10, e11, e1)
    ensures KSharesVec(u0, u1, EncryptU(p, env, rho, r, e1))
  {
    hide KTransformed, KZetaTable, KShares, MatrixRow, EncryptRow, KemEnv.Valid, KVecWithin;
    u0, u1 := [], [];
    ghost var u := EncryptU(p, env, rho, r, e1);
    for i := 0 to p.K()
      invariant |u0| == |u1| == i && forall k | 0 <= k < i :: KShares(u0[k], u1[k], u[k])
    {
      var row := ExpandRow(p, env, rho, i);
      var a, b := MaskedRow(row, r0h, r1h, e10[i], e11[i], z, r0, r1, r, e1[i]);
      u0, u1 := u0 + [a], u1 + [b];
    }
  }

  /** Adding 1665 times one share of a message bit. */
  lemma MessageScalar(c: int, v: int)
    requires 0 <= c < KQ && -6000 <= v <= 6000
    ensures var t := ModQ(c * 1665);
      t == (c * 1665) % KQ && 0 <= t < KQ && -0x8000 <= v + t < 0x8000
      && Cong(Barrett16(v + t), v + 1665 * c, KQ) && -1664 <= Barrett16(v + t) <= 1664
  {
    hide Cong, Barrett16, ModQ, DivQ;
    var n := c * 1665;
    DivQContract(n);
    var t := ModQ(n);
    CongMod(n, KQ);
    BarrettContract(v + t);
    CongRefl(v, KQ);
    CongAdd(v, v, t, n, KQ);
    CongTrans(Barrett16(v + t), v + t, v + n, KQ);
  }

  lemma MessagePair(v0: int, v1: int, x0: int, x1: int, c0: int, c1: int, b: int)
    requires Cong(v0, x0 + 1665 * c0, KQ) && Cong(v1, x1 + 1665 * c1, KQ) && (c0 + c1) % KQ == b && (b == 0 || b == 1)
    ensures Cong(v0 + v1, x0 + x1 + (if b == 1 then 1665 else 0), KQ)
  {
    CongMod(c0 + c1, KQ);
    CongScale(1665, c0 + c1, b, KQ);
    CongRefl(x0 + x1, KQ);
    CongAdd(x0 + x1, x0 + x1, 1665 * (c0 + c1), 1665 * b, KQ);
    CongAdd(v0, x0 + 1665 * c0, v1, x1 + 1665 * c1, KQ);
    CongTrans(v0 + v1, x0 + 1665 * c0 + (x1 + 1665 * c1), x0 + x1 + 1665 * b, KQ);
  }

  /** 32 lanes of v plus the decompressed message, on shares. */
  method AddMessage(x0: seq<int>, x1: seq<int>, mw: Share, rng: Rng) returns (y0: seq<int>, y1: seq<int>)
    requires |x0| == |x1| == 32 && (forall j | 0 <= j < 32 :: -6000 <= x0[j] <= 6000 && -6000 <= x1[j] <= 6000)
    modifies rng
    ensures |y0| == |y1| == 32
    ensures forall j | 0 <= j < 32 :: -1664 <= y0[j] <= 1664 && -1664 <= y1[j] <= 1664
    ensures forall j | 0 <= j < 32 :: Cong(y0[j] + y1[j], x0[j] + x1[j] + (if mw.Bit(j) then 1665 else 0), KQ)
  {
    hide Lane, Cong;
    ModuliValid();
    var mb := OneBit(mw);
    OneBitLow(mw, 0, KEM.bits);
    forall j | 0 <= j < LANES ensures mb.Low(j, KEM.bits) == B2I(mw.Bit(j)) { OneBitLow(mw, j, KEM.bits); }
    var c0, c1 := SecB2A(mb, rng, KEM);
    y0 := AddShare(x0, c0);
    y1 := AddShare(x1, c1);
    AddedShares(x0, x1, c0, c1, y0, y1, mw);
  }

  /** One share of v plus 1665 times one share of the bits. */
  function Added(x: int, c: int): int { Barrett16(x + ModQ(c * 1665)) }

  method AddShare(x: seq<int>, c: seq<int>) returns (y: seq<int>)
    requires |x| == 32 && Residues(c, 3329) && forall j | 0 <= j < 32 :: -6000 <= x[j] <= 6000
    ensures |y| == 32 && forall j | 0 <= j < 32 :: y[j] == Added(x[j], c[j])
  {
    hide Added;
    y := seq(32, j requires 0 <= j < 32 && |c| == |x| == 32 => Added(x[j], c[j]));
  }

  lemma AddedPair(x0: int, x1: int, c0: int, c1: int, b: bool)
    requires -6000 <= x0 <= 6000 && -6000 <= x1 <= 6000 && 0 <= c0 < KQ && 0 <= c1 < KQ && (c0 + c1) % KQ == B2I(b)
    ensures -1664 <= Added(x0, c0) <= 1664 && -1664 <= Added(x1, c1) <= 1664
    ensures Cong(Added(x0, c0) + Added(x1, c1), x0 + x1 + (if b then 1665 else 0), KQ)
  {
    hide Cong, Barrett16, ModQ;
    MessageScalar(c0, x0);
    MessageScalar(c1, x1);
    MessagePair(Added(x0, c0), Added(x1, c1), x0, x1, c0, c1, B2I(b));
  }

  lemma AddedShares(x0: seq<int>, x1: seq<int>, c0: seq<int>, c1: seq<int>, y0: seq<int>, y1: seq<int>, mw: Share)
    requires |x0| == |x1| == |y0| == |y1| == 32 && Residues(c0, 3329) && Residues(c1, 3329)
    requires forall j | 0 <= j < 32 :: -6000 <= x0[j] <= 6000 && -6000 <= x1[j] <= 6000
    requires forall j | 0 <= j < 32 :: (c0[j] + c1[j]) % KQ == B2I(mw.Bit(j))
    requires forall j | 0 <= j < 32 :: y0[j] == Added(x0[j], c0[j]) && y1[j] == Added(x1[j], c1[j])
    ensures forall j | 0 <= j < 32 :: -1664 <= y0[j] <= 1664 && -1664 <= y1[j] <= 1664
    ensures forall j | 0 <= j < 32 :: Cong(y0[j] + y1[j], x0[j] + x1[j] + (if mw.Bit(j) then 1665 else 0), KQ)
  {
    hide Added, Cong;
    forall j | 0 <= j < 32
      ensures -1664 <= y0[j] <= 1664 && -1664 <= y1[j] <= 1664
      ensures Cong(y0[j] + y1[j], x0[j] + x1[j] + (if mw.Bit(j) then 1665 else 0), KQ)
    {
      AddedPair(x0[j], x1[j], c0[j], c1[j], mw.Bit(j));
    }
  }

  /** The unmasked words are the bits of m. */
  ghost predicate WordsSpell(mw: seq<Share>, m: seq<byte>) {
    |mw| == 8 && |m| == 32 && forall g, j | 0 <= g < 8 && 0 <= j < LANES :: mw[g].Bit(j) == SpelledBit(m, 32 * g + j)
  }

  predicate SpelledBit(m: seq<byte>, k: nat)
    requires |m| == 32 && k < 256
  {
    StreamBit(m, k)
  }

  /** What v holds after the message is added, coefficient by coefficient. */
  ghost predicate WithMessage(y0: seq<int>, y1: seq<int>, x0: KPoly, x1: KPoly, m: seq<byte>)
  {
    |y0| == |y1| <= 256 && |m| == 32
    && (forall k | 0 <= k < |y0| :: -1664 <= y0[k] <= 1664 && -1664 <= y1[k] <= 1664)
    && forall k | 0 <= k < |y0| :: Cong(y0[k] + y1[k], x0[k] + x1[k] + FromMsg(m)[k], KQ)
  }

  lemma WithMore(y0: seq<int>, y1: seq<int>, x0: KPoly, x1: KPoly, m: seq<byte>, c0: seq<int>, c1: seq<int>, g: nat,
      mw: Share)
    requires WithMessage(y0, y1, x0, x1, m) && g < 8 && |y0| == 32 * g && |c0| == |c1| == 32
    requires forall j | 0 <= j < 32 :: -1664 <= c0[j] <= 1664 && -1664 <= c1[j] <= 1664
    requires (forall j | 0 <= j < 32 ::
      Cong(c0[j] + c1[j], x0[32 * g..32 * g + 32][j] + x1[32 * g..32 * g + 32][j] + (if mw.Bit(j) then 1665 else 0),
        KQ))
    requires forall j | 0 <= j < LANES :: mw.Bit(j) == SpelledBit(m, 32 * g + j)
    ensures WithMessage(y0 + c0, y1 + c1, x0, x1, m)
  {
    hide Cong, StreamBit;
    var n := 32 * g;
    forall k | n <= k < n + 32 ensures Cong((y0 + c0)[k] + (y1 + c1)[k], x0[k] + x1[k] + FromMsg(m)[k], KQ) {
      var j := k - n;
      assert x0[n..n + 32][j] == x0[k] && x1[n..n + 32][j] == x1[k];
      assert mw.Bit(j) == SpelledBit(m, n + j);
    }
  }

  /** v's shares plus the decompressed message. */
  method AddMessageAll(x0: KPoly, x1: KPoly, mw: seq<Share>, ghost m: seq<byte>, rng: Rng)
    returns (y0: KPoly, y1: KPoly)
    requires Within(x0, 6000) && Within(x1, 6000) && WordsSpell(mw, m)
    modifies rng
    ensures WithMessage(y0, y1, x0, x1, m) && Within(y0, 1664) && Within(y1, 1664)
  {
    var s: seq<int>, t: seq<int> := [], [];
    assert WithMessage(s, t, x0, x1, m);
    for g := 0 to 8
      invariant |s| == |t| == 32 * g && WithMessage(s, t, x0, x1, m)
    {
      hide Cong, WithMessage, SpelledBit;
      var c0, c1 := AddMessage(x0[32 * g..32 * g + 32], x1[32 * g..32 * g + 32], mw[g], rng);
      WithMore(s, t, x0, x1, m, c0, c1, g, mw[g]);
      s, t := s + c0, t + c1;
    }
    y0, y1 := s, t;
  }

  lemma MessageShares(y0: KPoly, y1: KPoly, x0: KPoly, x1: KPoly, m: seq<byte>, t: KPoly)
    requires WithMessage(y0, y1, x0, x1, m) && KSame(Plus(x0, x1), t)
    ensures KSame(Plus(y0, y1), Plus(t, FromMsg(m)))
  {
    hide Cong, FromMsg;
    forall k | 0 <= k < 256 ensures Cong(Plus(y0, y1)[k], Plus(t, FromMsg(m))[k], KQ) {
      var f := FromMsg(m)[k];
      assert Cong(Plus(x0, x1)[k], t[k], KQ);
      CongRefl(f, KQ);
      CongAdd(x0[k] + x1[k], t[k], f, f, KQ);
      CongTrans(y0[k] + y1[k], x0[k] + x1[k] + f, t[k] + f, KQ);
    }
  }

  /** Shares of v of the re-encryption. */
  method MaskedV(t: KVec, r0h: KVec, r1h: KVec, e0: KPoly, e1: KPoly, mw: seq<Share>, z: seq<int>, rng: Rng,
      ghost r0: KVec, ghost r1: KVec, ghost r: KVec, ghost e: KPoly, ghost m: seq<byte>) returns (v0: KPoly, v1: KPoly)
    requires 0 < |t| == |r0h| == |r1h| == |r| <= 4 && KTransformed(r0h, r0) && KTransformed(r1h, r1) &&
      KSharesVec(r0, r1, r)
    requires KVecWithin(t, 4095) && KZetaTable(z) && KShares(e0, e1, e) && WordsSpell(mw, m)
    modifies rng
    ensures |m| == 32 && KShares(v0, v1, EncryptV(t, r, e, m))
  {
    hide KSame, KTransformed, KZetaTable, KVecWithin, Within, Inner, KCanon, Plus, KShares, WithMessage, FromMsg,
      KSharesVec;
    var a0, a1 := SumShares(t, r0h, r1h, e0, e1, z, r0, r1, r, e);
    var y0, y1 := AddMessageAll(a0, a1, mw, m, rng);
    WithinWider(y0, 1664, 0x7fff);
    WithinWider(y1, 1664, 0x7fff);
    v0 := CanonPoly(y0);
    v1 := CanonPoly(y1);
    ghost var w := Plus(Inner(t, r), e);
    MessageShares(y0, y1, a0, a1, m, w);
    CanonicalShares(y0, y1, Plus(w, FromMsg(m)));
  }

  // ------------------------------------------------------------ the comparison

  lemma LaneInterval(a0: int, a1: int, lo: seq<int>, w: seq<int>, d: Width, u: int, c: int)
    requires Tables(lo, w, KQ, d) && 0 <= c < Levels(d) && 0 <= u < KQ && (a0 + a1) % KQ == u
    ensures 0 <= lo[c] <= KQ && 0 < w[c] <= KQ
    ensures (a0 + a1 - lo[c]) % KQ < w[c] <==> Compress(u, d) == c
  {
    hide Tables, Compress, Cong;
    IntervalIsCompress(lo, w, d, u, c);
    TablesAt(lo, w, c, d);
    CongMod(a0 + a1, KQ);
    CongRefl(lo[c], KQ);
    CongSub(a0 + a1, u, lo[c], lo[c], KQ);
    CongSameMod(a0 + a1 - lo[c], u - lo[c], KQ);
  }

  predicate MatchesUpTo(u: KPoly, c: KPoly, d: Width, n: nat)
    requires n <= 256
  {
    forall k | 0 <= k < n :: Compress(u[k], d) == c[k]
  }

  lemma MatchesMore(u: KPoly, c: KPoly, d: Width, g: nat, o: Share)
    requires g < 8 && forall j | 0 <= j < LANES :: o.Bit(j) == (Compress(u[32 * g + j], d) == c[32 * g + j])
    ensures MatchesUpTo(u, c, d, 32 * g + 32) <==> MatchesUpTo(u, c, d, 32 * g) && forall j | 0 <= j < LANES :: o.Bit(j)
  {
    hide Compress;
    var n := 32 * g;
    if MatchesUpTo(u, c, d, n) && forall j | 0 <= j < LANES :: o.Bit(j) {
      forall k | 0 <= k < n + 32 ensures Compress(u[k], d) == c[k] { if k >= n { assert o.Bit(k - n); } }
    }
    if MatchesUpTo(u, c, d, n + 32) {
      forall j | 0 <= j < LANES ensures o.Bit(j) { assert Compress(u[n + j], d) == c[n + j]; }
    }
  }

  /** 32 coefficients tested against the intervals of their ciphertext values. */
  method CompareLanes(a0: seq<int>, a1: seq<int>, ghost u: seq<int>, c: seq<int>, lo: seq<int>, w: seq<int>, d: Width,
      rng: Rng)
      returns (o: Share)
    requires Residues(a0, 3329) && Residues(a1, 3329) && |u| == |c| == LANES && Tables(lo, w, KQ, d)
    requires forall j | 0 <= j < LANES :: 0 <= c[j] < Levels(d) && 0 <= u[j] < KQ && (a0[j] + a1[j]) % KQ == u[j]
    modifies rng
    ensures forall j | 0 <= j < LANES :: o.Bit(j) == (Compress(u[j], d) == c[j])
  {
    hide Tables, Compress, Lane;
    ModuliValid();
    TablesShape(lo, w, d);
    var l, e := PickIntervals(c, lo, w);
    IntervalLanes(a0, a1, u, c, lo, w, d, l, e);
    o := SecInInterval(a0, a1, l, e, rng, KEM);
  }

  method PickIntervals(c: seq<int>, lo: seq<int>, w: seq<int>) returns (l: seq<int>, e: seq<int>)
    requires |c| == LANES && |lo| == |w| && forall j | 0 <= j < LANES :: 0 <= c[j] < |lo|
    ensures |l| == |e| == LANES && forall j | 0 <= j < LANES :: l[j] == lo[c[j]] && e[j] == w[c[j]]
  {
    l := seq(LANES, j requires 0 <= j < LANES && 0 <= c[j] < |lo| => lo[c[j]]);
    e := seq(LANES, j requires 0 <= j < LANES && 0 <= c[j] < |w| => w[c[j]]);
  }

  lemma IntervalLanes(a0: seq<int>, a1: seq<int>, u: seq<int>, c: seq<int>, lo: seq<int>, w: seq<int>, d: Width,
      l: seq<int>, e: seq<int>)
    requires |a0| == |a1| == |u| == |c| == |l| == |e| == LANES && Tables(lo, w, KQ, d) && |lo| == |w| == Levels(d)
    requires forall j | 0 <= j < LANES :: 0 <= c[j] < Levels(d) && 0 <= u[j] < KQ && (a0[j] + a1[j]) % KQ == u[j]
    requires forall j | 0 <= j < LANES :: l[j] == lo[c[j]] && e[j] == w[c[j]]
    ensures forall j | 0 <= j < LANES :: 0 <= l[j] <= KQ && 0 < e[j] <= KQ
    ensures forall j | 0 <= j < LANES :: (a0[j] + a1[j] - l[j]) % KQ < e[j] <==> Compress(u[j], d) == c[j]
  {
    hide Tables, Compress;
    forall j | 0 <= j < LANES
      ensures 0 <= l[j] <= KQ && 0 < e[j] <= KQ && ((a0[j] + a1[j] - l[j]) % KQ < e[j] <==> Compress(u[j], d) == c[j])
    {
      LaneInterval(a0[j], a1[j], lo, w, d, u[j], c[j]);
    }
  }

  lemma TablesShape(lo: seq<int>, w: seq<int>, d: Width)
    requires Tables(lo, w, KQ, d)
    ensures |lo| == |w| == Levels(d)
  {
  }

  method ComparePoly(all: AllOk, u0: KPoly, u1: KPoly, ghost u: KPoly, c: KPoly, lo: seq<int>, w: seq<int>, d: Width,
      rng: Rng)
    requires KShares(u0, u1, u) && InK(u, 0, KQ - 1) && InK(c, 0, Levels(d) - 1) && Tables(lo, w, KQ, d)
    modifies all, rng
    ensures all.AllSet() == (old(all.AllSet()) && MatchesUpTo(u, c, d, 256))
  {
    hide Tables, Compress, Lane, KSame, MatchesUpTo;
    MatchesNone(u, c, d);
    for g := 0 to 8
      invariant all.AllSet() == (old(all.AllSet()) && MatchesUpTo(u, c, d, 32 * g))
    {
      var n := 32 * g;
      var b0, b1 := u0[n..n + 32], u1[n..n + 32];
      ghost var part := u[n..n + 32];
      forall j | 0 <= j < LANES ensures (b0[j] + b1[j]) % KQ == part[j] {
        SharesAt(u0, u1, u, n + j);
      }
      var o := CompareLanes(b0, b1, part, c[n..n + 32], lo, w, d, rng);
      MatchesMore(u, c, d, g, o);
      all.Add(o, rng);
    }
  }

  lemma MatchesNone(u: KPoly, c: KPoly, d: Width)
    ensures MatchesUpTo(u, c, d, 0)
  {
  }
}
