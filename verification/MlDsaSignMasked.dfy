/** The masked signer: the same rejection loop on shares, proved to make the same decisions and
    leave the same bytes as the plain one, whatever the random stream. */
module MlDsaSignMasked {
  import opened ModArith
  import opened MlDsaModulus
  import opened Bits
  import opened Radix
  import opened BitCursor
  import opened NttTree
  import opened NegacyclicRing
  import opened NttLoop
  import opened MlDsaArith
  import opened MlDsaNtt
  import opened MlDsaRing
  import opened MlDsaParams
  import opened MlDsaRounding
  import opened MlDsaPacking
  import opened MlDsaHints
  import opened MlDsaScheme
  import opened MlDsaVectors
  import opened MlDsaCodec
  import opened MlDsaSign
  import opened MaskedGadgets
  import opened MaskedConversions
  import opened MaskedDsa
  import opened MaskedVectors
  import KeccakSponge
  import MaskedKeccak
  import MlDsaCorrect

  // ------------------------------------------------------------ y from a masked stream

  /** Word b of 32 lanes of one share: bit b of fields 32g .. 32g+31. */
  method FieldWord(buf: seq<byte>, w: nat, g: nat, b: nat) returns (r: Word)
    requires |buf| == 32 * w && g < 8 && b < w
    ensures forall j | 0 <= j < LANES :: FieldBit(buf, w, 32 * g + j, b) == r[j]
  {
    r := Zeros(32);
    for j := 0 to LANES
      invariant forall i | 0 <= i < j :: FieldBit(buf, w, 32 * g + i, b) == r[i]
    {
      FieldFits(w, 32 * g + j, b);
      var pos := (32 * g + j) * w + b;
      r := r[j := StreamBit(buf, pos)];
    }
  }

  /** 32 fields as a Boolean sharing: unpacking is linear, share by share. */
  method FieldLanes(b0: seq<byte>, b1: seq<byte>, w: nat, g: nat) returns (v: Bs)
    requires |b0| == |b1| == 32 * w && g < 8 && w <= 20
    ensures v.Fits(w)
    ensures forall j | 0 <= j < LANES :: v.Value(j) == UnpackBits(XorBytes(b0, b1), w, 256)[32 * g + j]
  {
    hide Lane, UnpackBits, FieldBit, Pow2;
    var w0: seq<Word>, w1: seq<Word> := [], [];
    for b := 0 to w
      invariant |w0| == |w1| == b
      invariant forall i, j | 0 <= i < b && 0 <= j < LANES ::
        (w0[i][j] != w1[i][j]) == BitOf(UnpackBits(XorBytes(b0, b1), w, 256)[32 * g + j], i)
    {
      var x := FieldWord(b0, w, g, b);
      var y := FieldWord(b1, w, g, b);
      forall j | 0 <= j < LANES
        ensures (x[j] != y[j]) == BitOf(UnpackBits(XorBytes(b0, b1), w, 256)[32 * g + j], b)
      {
        FieldBitXor(b0, b1, w, 32 * g + j, b);
        FieldBitIs(XorBytes(b0, b1), w, 32 * g + j, b);
      }
      w0, w1 := w0 + [x], w1 + [y];
    }
    v := Bs(Padded(w0), Padded(w1));
    PaddedFits(w0, w1, w);
    forall j | 0 <= j < LANES
      ensures v.Value(j) == UnpackBits(XorBytes(b0, b1), w, 256)[32 * g + j]
    {
      PaddedLane(w0, w1, w, j);
      LaneIsField(w0, w1, j, w, UnpackBits(XorBytes(b0, b1), w, 256)[32 * g + j]);
    }
  }

  lemma LaneIsField(w0: seq<Word>, w1: seq<Word>, j: nat, w: nat, f: int)
    requires |w0| == |w1| == w && j < LANES && 0 <= f < Pow2(w)
    requires forall b | 0 <= b < w :: (w0[b][j] != w1[b][j]) == BitOf(f, b)
    ensures Lane(w0, w1, j, w) == f
  {
    hide Lane, Pow2, BitOf;
    var m := seq(w, b requires 0 <= b < w => if BitOf(f, b) then Ones(32) else Zeros(32));
    BitsliceLane(m, w0, w1, f, j, w);
    DivModUnique(f, Pow2(w), 0, f);
  }

  lemma FieldBelowQ(buf: seq<byte>, p: Params, m: nat)
    requires |buf| == p.ZBytes() && m < 256
    ensures 0 <= UnpackBits(buf, p.ZBits(), 256)[m] < 2 * p.Gamma1() < Q
  {
    Pow2Values();
  }

  /** gamma1 - value, share by share. */
  lemma MaskScalar(c0: int, c1: int, g: int, f: int)
    requires 0 <= c0 < Q && 0 <= c1 < Q && 0 <= g < Q && (c0 + c1) % Q == f
    ensures var a0 := CaddMod(g - c0, Q);
      var a1 := CaddMod(-c1, Q);
      0 <= a0 < Q && 0 <= a1 < Q && Cong(a0 + a1, g - f, Q)
  {
    CongMod(c0 + c1, Q);
    var a0, a1 := CaddMod(g - c0, Q), CaddMod(-c1, Q);
    CongRefl(g, Q);
    CongSub(g, g, c0 + c1, f, Q);
    CongIntro(a0 + a1, g - (c0 + c1), Q, (if g < c0 then 1 else 0) + (if c1 > 0 then 1 else 0));
    CongTrans(a0 + a1, g - (c0 + c1), g - f, Q);
  }

  /** 32 coefficients of y. */
  method MaskLanes(p: Params, b0: seq<byte>, b1: seq<byte>, g: nat, rng: Rng) returns (a0: seq<int>, a1: seq<int>)
    requires |b0| == |b1| == p.ZBytes() && g < 8
    modifies rng
    ensures |a0| == |a1| == 32
    ensures forall j | 0 <= j < 32 :: 0 <= a0[j] < Q && 0 <= a1[j] < Q
    ensures forall j | 0 <= j < 32 :: Cong(a0[j] + a1[j],
              LoadPoly(XorBytes(b0, b1), p.Gamma1(), p.ZBits())[32 * g + j], Q)
  {
    hide Lane, UnpackBits, Cong, CaddMod, Residue64;
    ModuliValid();
    var v := FieldLanes(b0, b1, p.ZBits(), g);
    ghost var f := UnpackBits(XorBytes(b0, b1), p.ZBits(), 256);
    forall j | 0 <= j < LANES ensures v.Low(j, DSA.bits) == f[32 * g + j] < DSA.q {
      FieldBelowQ(XorBytes(b0, b1), p, 32 * g + j);
      FitsMore(v, j, p.ZBits(), DSA.bits);
    }
    var c0, c1 := SecB2A(v, rng, DSA);
    a0, a1 := MaskAnswer(c0, c1, p.Gamma1(), f[32 * g..32 * g + 32]);
  }

  /** Shares of gamma1 - f from shares of f. */
  method MaskAnswer(c0: seq<int>, c1: seq<int>, gamma1: int, ghost f: seq<int>) returns (a0: seq<int>, a1: seq<int>)
    requires Residues(c0, Q) && Residues(c1, Q) && |f| == LANES &&
      (forall j | 0 <= j < LANES :: (c0[j] + c1[j]) % Q == f[j])
    requires 0 <= gamma1 < Q
    ensures |a0| == |a1| == 32
    ensures forall j | 0 <= j < 32 :: 0 <= a0[j] < Q && 0 <= a1[j] < Q && Cong(a0[j] + a1[j], gamma1 - f[j], Q)
  {
    hide Cong, CaddMod;
    forall j | 0 <= j < 32
      ensures var a0 := CaddMod(gamma1 - c0[j], Q);
        var a1 := CaddMod(-c1[j], Q);
        0 <= a0 < Q && 0 <= a1 < Q && Cong(a0 + a1, gamma1 - f[j], Q)
    {
      MaskScalar(c0[j], c1[j], gamma1, f[j]);
    }
    a0 := seq(32, j requires 0 <= j < 32 && |c0| == 32 => CaddMod(gamma1 - c0[j], Q));
    a1 := seq(32, j requires 0 <= j < 32 && |c1| == 32 => CaddMod(-c1[j], Q));
  }

  lemma FitsMore(b: Bs, j: nat, n: nat, m: nat)
    requires b.Fits(n) && j < LANES && n <= m <= MAX_BITS
    ensures b.Low(j, m) == b.Value(j)
  {
    FitsLow(b, j, n);
    FitsLow(b, j, m);
  }

  /** y for one polynomial from the masked rho''. */
  method PolyGamma1(p: Params, rp0: seq<byte>, rp1: seq<byte>, nonce: nat, rng: Rng) returns (a0: Poly, a1: Poly)
    requires |rp0| == |rp1| && nonce < 65536
    modifies rng
    ensures SharesPoly(a0, a1, MaskPoly(p, XorBytes(rp0, rp1), nonce))
  {
    hide LoadPoly, Cong, KeccakSponge.Sponge;
    var b0, b1 := MaskedKeccak.SpongeMasked(rp0 + NonceBytes(nonce), rp1 + [0, 0], p.ZBytes(), 136, 0x1f, rng);
    XorTail(rp0, rp1, NonceBytes(nonce));
    ghost var y := MaskPoly(p, XorBytes(rp0, rp1), nonce);
    var s: seq<int>, t: seq<int> := [], [];
    for g := 0 to 8
      invariant |s| == |t| == 32 * g
      invariant forall k | 0 <= k < 32 * g :: 0 <= s[k] < Q && 0 <= t[k] < Q && Cong(s[k] + t[k], y[k], Q)
    {
      var c0, c1 := MaskLanes(p, b0, b1, g, rng);
      s, t := s + c0, t + c1;
    }
    a0, a1 := s, t;
  }

  lemma XorTail(a: seq<byte>, b: seq<byte>, c: seq<byte>)
    requires |a| == |b| && |c| == 2
    ensures XorBytes(a + c, b + [0, 0]) == XorBytes(a, b) + c
  {
    hide XorByte;
    XorZero(c[0]);
    XorZero(c[1]);
    var x, y := a + c, b + [0, 0];
    forall i | 0 <= i < |a| ensures XorBytes(x, y)[i] == XorBytes(a, b)[i] { }
    assert XorBytes(x, y)[|a|] == c[0] && XorBytes(x, y)[|a| + 1] == c[1];
  }

  method MaskShares(p: Params, rp0: seq<byte>, rp1: seq<byte>, attempt: nat, rng: Rng) returns (y0: Vec, y1: Vec)
    requires |rp0| == |rp1| && attempt < ATTEMPTS
    modifies rng
    ensures SharesVec(y0, y1, MaskVec(p, XorBytes(rp0, rp1), attempt))
  {
    hide MaskPoly, SharesPoly;
    y0, y1 := [], [];
    ghost var y := MaskVec(p, XorBytes(rp0, rp1), attempt);
    for i := 0 to p.L()
      invariant |y0| == |y1| == i && forall k | 0 <= k < i :: SharesPoly(y0[k], y1[k], y[k])
    {
      var a, b := PolyGamma1(p, rp0, rp1, p.L() * attempt + i, rng);
      y0, y1 := y0 + [a], y1 + [b];
    }
  }

  // ------------------------------------------------------------ the tested values, on shares

  /** c times both shares of a transformed sharing. */
  method ShareTimes(ch: Poly, h0: Vec, h1: Vec, ghost c: Poly, ghost s0: Vec, ghost s1: Vec, ghost s: Vec, z: seq<int>)
      returns (x0: Vec, x1: Vec)
    requires Same(ch, Hat(c)) && Within(ch, 8 * Q) && ZetaTable(z)
    requires Transformed(h0, s0) && Transformed(h1, s1) && SharesVec(s0, s1, s)
    ensures |x0| == |x1| == |s| && VecWithin(x0, INVERTED) && VecWithin(x1, INVERTED)
    ensures forall i | 0 <= i < |s| :: Same(Plus(x0[i], x1[i]), Product(c, s[i]))
  {
    hide Same, Within, Hat, Product, Transformed, ZetaTable, VecWithin;
    x0 := TimesChallenge(ch, h0, c, s0, z);
    x1 := TimesChallenge(ch, h1, c, s1, z);
    forall i | 0 <= i < |s| ensures Same(Plus(x0[i], x1[i]), Product(c, s[i])) {
      assert SharesPoly(s0[i], s1[i], s[i]);
      assert MulVec(c, s0)[i] == Product(c, s0[i]) && MulVec(c, s1)[i] == Product(c, s1[i]);
      ProductShares(c, s0[i], s1[i], s[i], x0[i], x1[i]);
    }
  }

  lemma SumShares(x0: Poly, x1: Poly, a: Poly, y0: Poly, y1: Poly, y: Poly)
    requires Same(Plus(x0, x1), a) && SharesPoly(y0, y1, y)
    ensures SharesPoly(Canon(Plus(x0, y0)), Canon(Plus(x1, y1)), Plus(y, a))
  {
    SamePlus(Plus(y0, y1), y, Plus(x0, x1), a);
    assert Plus(Plus(x0, y0), Plus(x1, y1)) == Plus(Plus(y0, y1), Plus(x0, x1));
    hide Same;
    CanonShares(Plus(x0, y0), Plus(x1, y1), Plus(y, a));
  }

  lemma DifferenceShares(x0: Poly, x1: Poly, a: Poly, w0: Poly, w1: Poly, w: Poly)
    requires Same(Plus(x0, x1), a) && SharesPoly(w0, w1, w)
    ensures SharesPoly(Canon(Minus(w0, x0)), Canon(Minus(w1, x1)), Minus(w, a))
  {
    SameMinus(Plus(w0, w1), w, Plus(x0, x1), a);
    assert Plus(Minus(w0, x0), Minus(w1, x1)) == Minus(Plus(w0, w1), Plus(x0, x1));
    hide Same;
    CanonShares(Minus(w0, x0), Minus(w1, x1), Minus(w, a));
  }

  /** Shares of y + x. */
  method ShareSumVec(x0: Vec, x1: Vec, ghost a: Vec, y0: Vec, y1: Vec, ghost y: Vec) returns (z0: Vec, z1: Vec)
    requires SharesVec(y0, y1, y) && |x0| == |x1| == |a| == |y| && VecWithin(x0, Q) && VecWithin(x1, Q)
    requires forall i | 0 <= i < |a| :: Same(Plus(x0[i], x1[i]), a[i])
    ensures SharesVec(z0, z1, AddVec(y, a))
  {
    SharesRange(y0, y1, y);
    hide Same, Within, Canon, Plus, VecWithin, SharesPoly;
    var t0 := VecAdd(x0, y0, Q, Q);
    VecWider(t0, 2 * Q, 100 * Q);
    z0 := VecCanon(t0);
    var t1 := VecAdd(x1, y1, Q, Q);
    VecWider(t1, 2 * Q, 100 * Q);
    z1 := VecCanon(t1);
    forall i | 0 <= i < |y| ensures SharesPoly(z0[i], z1[i], AddVec(y, a)[i]) {
      SumShares(x0[i], x1[i], a[i], y0[i], y1[i], y[i]);
    }
  }

  /** Shares of w - x. */
  method ShareDifferenceVec(x0: Vec, x1: Vec, ghost a: Vec, w0: Vec, w1: Vec, ghost w: Vec) returns (z0: Vec, z1: Vec)
    requires SharesVec(w0, w1, w) && |x0| == |x1| == |a| == |w| && VecWithin(x0, Q) && VecWithin(x1, Q)
    requires forall i | 0 <= i < |a| :: Same(Plus(x0[i], x1[i]), a[i])
    ensures SharesVec(z0, z1, SubVec(w, a))
  {
    SharesRange(w0, w1, w);
    hide Same, Within, Canon, Plus, Minus, VecWithin, SharesPoly;
    var t0 := VecSub(w0, x0, Q, Q);
    VecWider(t0, 2 * Q, 100 * Q);
    z0 := VecCanon(t0);
    var t1 := VecSub(w1, x1, Q, Q);
    VecWider(t1, 2 * Q, 100 * Q);
    z1 := VecCanon(t1);
    forall i | 0 <= i < |w| ensures SharesPoly(z0[i], z1[i], SubVec(w, a)[i]) {
      DifferenceShares(x0[i], x1[i], a[i], w0[i], w1[i], w[i]);
    }
  }

  method ShareCanonVec(x0: Vec, x1: Vec, ghost a: Vec) returns (z0: Vec, z1: Vec)
    requires |x0| == |x1| == |a| && VecWithin(x0, Q) && VecWithin(x1, Q)
    requires forall i | 0 <= i < |a| :: Same(Plus(x0[i], x1[i]), a[i])
    ensures SharesVec(z0, z1, a)
  {
    hide Same, Within, Canon, Plus, VecWithin, SharesPoly;
    VecWider(x0, Q, 100 * Q);
    VecWider(x1, Q, 100 * Q);
    z0 := VecCanon(x0);
    z1 := VecCanon(x1);
    forall i | 0 <= i < |a| ensures SharesPoly(z0[i], z1[i], a[i]) { CanonShares(x0[i], x1[i], a[i]); }
  }

  // ------------------------------------------------------------ the low-bits test

  /** v = w - a against w1 steps is w0 - a, centred. */
  lemma LowScalar(v: int, w: int, a: int, den: Den, B: int)
    requires 0 <= w < Q && Cong(v, w - a, Q)
    ensures Small(v % Q - 2 * Gamma2(den) * HighBits(w, den), B) <==> -B < Centred(LowBits(w, den) - a) < B
  {
    hide Decompose, Centred, Cong;
    var w1, w0 := HighBits(w, den), LowBits(w, den);
    DecomposeParts(w, den);
    var g := w1 * 2 * Gamma2(den);
    assert g == 2 * Gamma2(den) * w1;
    CongMod(v, Q);
    CongTrans(v % Q, v, w - a, Q);
    CongRefl(a, Q);
    CongSub(w, g + w0, a, a, Q);
    CongTrans(v % Q, w - a, g + w0 - a, Q);
    CongRefl(g, Q);
    CongSub(v % Q, g + w0 - a, g, g, Q);
    CentredCong(v % Q - g, w0 - a);
  }

  lemma LowLanes(b0: seq<int>, b1: seq<int>, bp: Bs, w1: seq<int>, den: Den, beta: nat, o: Share)
    requires bp.Fits(DSA.bits) && |b0| == |b1| == |w1| == LANES && 0 < beta < 1000
    requires forall j | 0 <= j < LANES :: 0 <= w1[j] < Steps(den)
    requires forall j | 0 <= j < LANES :: bp.Low(j, DSA.bits) == BPrime(Unshared(b0, b1, j), den)
    requires (forall j | 0 <= j < LANES ::
      (o.Bit(j) == (WindowLow(w1[j], beta, den) <= bp.Low(j, DSA.bits) < WindowHigh(w1[j], beta, den))))
    ensures (forall j | 0 <= j < LANES ::
      o.Bit(j) == Small((b0[j] + b1[j]) % Q - 2 * Gamma2(den) * w1[j], Gamma2(den) - beta))
  {
    hide Lane, BPrime, WindowLow, WindowHigh, Small;
    forall j | 0 <= j < LANES
      ensures o.Bit(j) == Small((b0[j] + b1[j]) % Q - 2 * Gamma2(den) * w1[j], Gamma2(den) - beta)
    {
      CongMod(b0[j] + b1[j], Q);
      WindowIsSmall(Unshared(b0, b1, j), w1[j], beta, den);
    }
  }

  predicate LowOk(a0: Poly, a1: Poly, w1: Poly, den: Den, beta: nat, n: nat)
    requires n <= 256
  {
    forall j | 0 <= j < n :: Small((a0[j] + a1[j]) % Q - 2 * Gamma2(den) * w1[j], Gamma2(den) - beta)
  }

  lemma LowOkMore(a0: Poly, a1: Poly, w1: Poly, den: Den, beta: nat, n: nat, o: Share)
    requires n + 32 <= 256
    requires (forall j | 0 <= j < LANES ::
      o.Bit(j) == Small((a0[n + j] + a1[n + j]) % Q - 2 * Gamma2(den) * w1[n + j], Gamma2(den) - beta))
    ensures LowOk(a0, a1, w1, den, beta, n + 32)
      <==> LowOk(a0, a1, w1, den, beta, n) && forall j | 0 <= j < LANES :: o.Bit(j)
  {
    hide Small;
    if LowOk(a0, a1, w1, den, beta, n) && forall j | 0 <= j < LANES :: o.Bit(j) {
      forall k | 0 <= k < n + 32
        ensures Small((a0[k] + a1[k]) % Q - 2 * Gamma2(den) * w1[k], Gamma2(den) - beta)
      {
        if k >= n { assert o.Bit(k - n); }
      }
    }
    if LowOk(a0, a1, w1, den, beta, n + 32) {
      forall j | 0 <= j < LANES ensures o.Bit(j) {
        assert Small((a0[n + j] + a1[n + j]) % Q - 2 * Gamma2(den) * w1[n + j], Gamma2(den) - beta);
      }
    }
  }

  method LowOkPoly(acc: AllOk, a0: Poly, a1: Poly, w1: Poly, den: Den, beta: nat, rng: Rng)
    requires InRange(a0, 0, Q - 1) && InRange(a1, 0, Q - 1) && InRange(w1, 0, Steps(den) - 1) && 0 < beta < 1000
    modifies acc, rng
    ensures acc.AllSet() == (old(acc.AllSet()) && LowOk(a0, a1, w1, den, beta, 256))
  {
    hide Lane, LowOk, Small, BPrime, WindowLow, WindowHigh;
    LowOkNone(a0, a1, w1, den, beta);
    for g := 0 to 8
      invariant acc.AllSet() == (old(acc.AllSet()) && LowOk(a0, a1, w1, den, beta, 32 * g))
    {
      var b0, b1, u := a0[32 * g..32 * g + 32], a1[32 * g..32 * g + 32], w1[32 * g..32 * g + 32];
      var bp := DsaBPrime(b0, b1, den, rng);
      BPrimeLanes(bp, b0, b1, den);
      var o := DsaLowBitsOk(bp, u, den, beta, rng);
      LowLanes(b0, b1, bp, u, den, beta, o);
      LowOkMore(a0, a1, w1, den, beta, 32 * g, o);
      acc.Add(o, rng);
    }
  }

  lemma LowOkNone(a0: Poly, a1: Poly, w1: Poly, den: Den, beta: nat)
    ensures LowOk(a0, a1, w1, den, beta, 0)
  {
  }

  /** The window test of one polynomial of v = w - c s2 is the norm test of w0 - c s2. */
  lemma LowOkIsNorm(a0: Poly, a1: Poly, w: Poly, cs: Poly, den: Den, beta: nat)
    requires SharesPoly(a0, a1, Minus(w, cs)) && InRange(w, 0, Q - 1)
    ensures LowOk(a0, a1, HighPoly(w, den), den, beta, 256)
      <==> InRange(CentredPoly(Minus(LowPoly(w, den), cs)), 1 - (Gamma2(den) - beta), Gamma2(den) - beta - 1)
  {
    hide Small, Centred, Decompose, Cong;
    var B := Gamma2(den) - beta;
    forall j | 0 <= j < 256
      ensures Small((a0[j] + a1[j]) % Q - 2 * Gamma2(den) * HighPoly(w, den)[j], B)
        <==> 1 - B <= CentredPoly(Minus(LowPoly(w, den), cs))[j] <= B - 1
    {
      assert Cong(Plus(a0, a1)[j], Minus(w, cs)[j], Q);
      LowScalar(a0[j] + a1[j], w[j], cs[j], den, B);
    }
  }

  /** The r0 test on shares of v: one bit. */
  method LowBitsTest(v0: Vec, v1: Vec, w1: Vec, ghost w: Vec, ghost cs: Vec, den: Den, beta: nat, rng: Rng)
    returns (ok: bool)
    requires |w| == |cs| && SharesVec(v0, v1, SubVec(w, cs)) && w1 == HighVec(w, den) && 0 < beta < 1000
    requires forall i | 0 <= i < |w| :: InRange(w[i], 0, Q - 1)
    modifies rng
    ensures ok <==> Bounded(CentredVec(SubVec(LowVec(w, den), cs)), Gamma2(den) - beta)
  {
    hide Same, LowOk, CentredPoly, InRange, LowPoly, HighPoly, Minus, Gamma2;
    var acc := new AllOk();
    ghost var v := SubVec(LowVec(w, den), cs);
    ghost var B := Gamma2(den) - beta;
    for i := 0 to |v0|
      invariant fresh(acc) && acc.AllSet() == forall k | 0 <= k < i :: InRange(CentredPoly(v[k]), 1 - B, B - 1)
    {
      assert SharesPoly(v0[i], v1[i], Minus(w[i], cs[i]));
      HighRange(w[i], den);
      assert w1[i] == HighPoly(w[i], den) && v[i] == Minus(LowPoly(w[i], den), cs[i]);
      LowOkIsNorm(v0[i], v1[i], w[i], cs[i], den, beta);
      LowOkPoly(acc, v0[i], v1[i], w1[i], den, beta, rng);
    }
    ok := acc.Reveal(rng);
    BoundedCentred(v, B);
  }

  lemma HighRange(w: Poly, den: Den)
    requires InRange(w, 0, Q - 1)
    ensures InRange(HighPoly(w, den), 0, Steps(den) - 1)
  {
    hide Decompose;
    forall j | 0 <= j < 256 ensures 0 <= HighPoly(w, den)[j] <= Steps(den) - 1 { DecomposeParts(w[j], den); }
  }

  // ------------------------------------------------------------ the hints

  function DiffPoly(hu: Poly, w1: Poly): (h: Poly)
    ensures IsFlags(h)
  {
    seq(256, j requires 0 <= j < 256 => if hu[j] != w1[j] then 1 else 0)
  }

  function DiffVec(hu: Vec, w1: Vec): (h: Vec)
    requires |hu| == |w1|
    ensures |h| == |hu| && IsHints(h)
  {
    seq(|hu|, i requires 0 <= i < |hu| => DiffPoly(hu[i], w1[i]))
  }

  method ComparePoly(hu: Poly, w1: Poly) returns (h: Poly, n: nat)
    ensures h == DiffPoly(hu, w1) && n == |Positions(h, 256)|
  {
    ghost var H := DiffPoly(hu, w1);
    var s: seq<int> := [];
    n := 0;
    for j := 0 to 256
      invariant |s| == j && s == H[..j] && n == |Positions(H, j)|
    {
      PositionsStep(H, j);
      s := s + [if hu[j] != w1[j] then 1 else 0];
      n := n + s[j];
    }
    h := s;
  }

  /** The positions where the high bits moved, and how many there are. */
  method CompareVec(hu: Vec, w1: Vec) returns (h: Vec, n: nat)
    requires |hu| == |w1|
    ensures h == DiffVec(hu, w1) && n == HintWeight(h)
  {
    hide Flat, Positions;
    h, n := [], 0;
    ghost var H := DiffVec(hu, w1);
    assert Lists(H)[0..] == Lists(H);
    for i := 0 to |hu|
      invariant |h| == i && h == H[..i] && n + |Flat(Lists(H)[i..])| == HintWeight(H)
    {
      var p, m := ComparePoly(hu[i], w1[i]);
      FlatTail(Lists(H), i);
      h, n := h + [p], n + m;
    }
    EmptyFlat(Lists(H));
  }

  /** Revealed high bits differ from w1 exactly where MakeHint is set. */
  lemma DiffIsHint(w: Poly, a: Poly, b: Poly, den: Den, beta: nat)
    requires InRange(w, 0, Q - 1)
    requires InRange(CentredPoly(Minus(LowPoly(w, den), a)), 1 - (Gamma2(den) - beta), Gamma2(den) - beta - 1)
    requires InRange(CentredPoly(b), 1 - Gamma2(den), Gamma2(den) - 1)
    ensures DiffPoly(HighPoly(Canon(Plus(Minus(w, a), b)), den), HighPoly(w, den))
      == HintPoly(Plus(CentredPoly(Minus(LowPoly(w, den), a)), CentredPoly(b)), HighPoly(w, den), den)
  {
    hide Decompose, MakeHint, Centred, Cong, LowBits, HighBits, UseHint, Gamma2;
    var x := Canon(Plus(Minus(w, a), b));
    var r, u := CentredPoly(Minus(LowPoly(w, den), a)), CentredPoly(b);
    forall j | 0 <= j < 256
      ensures (if HighBits(x[j], den) != HighBits(w[j], den) then 1 else 0) ==
        MakeHint(Plus(r, u)[j], HighBits(w[j], den), den)
    {
      assert r[j] == Centred(LowBits(w[j], den) - a[j]) && u[j] == Centred(b[j]);
      RecomputedCong(w[j], a[j], b[j]);
      MlDsaCorrect.HintScalar(x[j], w[j], a[j], b[j], den);
      HintIsBit(Plus(r, u)[j], HighBits(w[j], den), den);
    }
  }

  lemma RecomputedCong(w: int, a: int, b: int)
    ensures 0 <= (w - a + b) % Q < Q && Cong((w - a + b) % Q + a, w + b, Q)
  {
    CongMod(w - a + b, Q);
    CongRefl(a, Q);
    CongAdd((w - a + b) % Q, w - a + b, a, a, Q);
  }

  lemma HintIsBit(a0: int, a1: int, den: Den)
    ensures MakeHint(a0, a1, den) == 0 || MakeHint(a0, a1, den) == 1
  {
  }

  lemma DiffVecIsHint(w: Vec, a: Vec, b: Vec, hu: Vec, den: Den, beta: nat)
    requires |w| == |a| == |b| == |hu|
    requires forall i | 0 <= i < |w| :: InRange(w[i], 0, Q - 1)
    requires Bounded(CentredVec(SubVec(LowVec(w, den), a)), Gamma2(den) - beta) && Bounded(CentredVec(b), Gamma2(den))
    requires forall i | 0 <= i < |w| :: hu[i] == HighPoly(Canon(AddVec(SubVec(w, a), b)[i]), den)
    ensures DiffVec(hu, HighVec(w, den)) == HintVec(AddVec(CentredVec(SubVec(LowVec(w, den), a)), CentredVec(b)),
      HighVec(w, den), den)
  {
    hide InRange, CentredPoly, LowPoly, HighPoly, Minus, Plus, Canon, Gamma2, HintPoly, DiffPoly;
    var r, u := CentredVec(SubVec(LowVec(w, den), a)), CentredVec(b);
    forall i | 0 <= i < |w|
      ensures DiffVec(hu, HighVec(w, den))[i] == HintVec(AddVec(r, u), HighVec(w, den), den)[i]
    {
      MlDsaCorrect.BoundedAt(r, Gamma2(den) - beta, i);
      MlDsaCorrect.BoundedAt(u, Gamma2(den), i);
      assert r[i] == CentredPoly(Minus(LowPoly(w[i], den), a[i])) && u[i] == CentredPoly(b[i]);
      assert AddVec(SubVec(w, a), b)[i] == Plus(Minus(w[i], a[i]), b[i]);
      DiffIsHint(w[i], a[i], b[i], den, beta);
    }
  }

  // ------------------------------------------------------------ z, unmasked

  function Unmasked(a: int, b: int): int {
    var s := a + b;
    var t := if s >= Q then s - Q else s;
    if t > (Q - 1) / 2 then t - Q else t
  }

  lemma UnmaskedIs(a: int, b: int)
    requires 0 <= a < Q && 0 <= b < Q
    ensures Unmasked(a, b) == Centred(a + b)
  {
    hide Centred, Cong;
    var u := Unmasked(a, b);
    CongIntro(u, a + b, Q, (u - (a + b)) / Q);
    CongSym(Centred(a + b), a + b, Q);
    CongTrans(u, a + b, Centred(a + b), Q);
    CongUnique(u, Centred(a + b), Q);
  }

  method UnmaskVec(m0: Vec, m1: Vec, ghost v: Vec) returns (z: Vec)
    requires SharesVec(m0, m1, v)
    ensures z == CentredVec(v)
  {
    hide Same, Centred, CentredPoly, Unmasked;
    z := [];
    for i := 0 to |m0|
      invariant |z| == i && forall k | 0 <= k < i :: z[k] == CentredPoly(v[k])
    {
      assert SharesPoly(m0[i], m1[i], v[i]);
      var t := UnmaskPoly(m0[i], m1[i], v[i]);
      z := z + [t];
    }
  }

  method UnmaskPoly(a0: Poly, a1: Poly, ghost v: Poly) returns (z: Poly)
    requires SharesPoly(a0, a1, v)
    ensures z == CentredPoly(v)
  {
    hide Same, Centred, Unmasked;
    var s: seq<int> := [];
    for j := 0 to 256
      invariant |s| == j && forall k | 0 <= k < j :: s[k] == Centred(a0[k] + a1[k])
    {
      UnmaskedIs(a0[j], a1[j]);
      s := s + [Unmasked(a0[j], a1[j])];
    }
    CentredSameIs(Plus(a0, a1), v);
    z := s;
    assert z == CentredPoly(Plus(a0, a1));
  }

  // ------------------------------------------------------------ one masked candidate

  /** The shares of the key before the transform. */
  datatype KeyShares = KeyShares(s10: Vec, s11: Vec, s20: Vec, s21: Vec, t00: Vec, t01: Vec) {
    ghost predicate Of(k: SecretKey) {
      SharesVec(s10, s11, k.s1) && SharesVec(s20, s21, k.s2) && SharesVec(t00, t01, k.t0)
    }
  }

  datatype PreparedShares = PreparedShares(A: Matrix, s10: Vec, s11: Vec, s20: Vec, s21: Vec, t00: Vec, t01: Vec,
    z: seq<int>) {
    ghost predicate For(p: Params, k: SecretKey, sh: KeyShares) {
      k.Shape(p) && MatrixShape(A, p) && (forall i | 0 <= i < |A| :: VecWithin(A[i], Q)) && ZetaTable(z) && sh.Of(k)
      && Transformed(s10, sh.s10) && Transformed(s11, sh.s11) && Transformed(s20, sh.s20) && Transformed(s21, sh.s21)
      && Transformed(t00, sh.t00) && Transformed(t01, sh.t01)
    }
  }

  /** One share's A y, made canonical. */
  method CommitShare(A: Matrix, y: Vec, z: seq<int>) returns (w: Vec)
    requires 0 < |y| <= 8 && VecWithin(y, Q) && ZetaTable(z)
    requires forall i | 0 <= i < |A| :: |A[i]| == |y| && VecWithin(A[i], Q)
    ensures w == Apply(A, y)
  {
    hide Same, Within, Unhat, Dot, ZetaTable, Canon, VecWithin;
    var x := Product32(A, y, z);
    VecWider(x, INVERTED, 100 * Q);
    w := VecCanon(x);
    forall i | 0 <= i < |w| ensures w[i] == Apply(A, y)[i] {
      CanonUnique(x[i], Unhat(Dot(A[i], y, |y|)));
    }
  }

  /** Shares of w = A y, share by share. */
  method CommitShares(A: Matrix, y0: Vec, y1: Vec, ghost y: Vec, z: seq<int>) returns (w0: Vec, w1: Vec)
    requires SharesVec(y0, y1, y) && 0 < |y| <= 8 && ZetaTable(z)
    requires forall i | 0 <= i < |A| :: |A[i]| == |y| && VecWithin(A[i], Q)
    ensures SharesVec(w0, w1, Apply(A, y))
  {
    SharesRange(y0, y1, y);
    hide VecWithin, ZetaTable, Apply, SharesPoly;
    w0 := CommitShare(A, y0, z);
    w1 := CommitShare(A, y1, z);
    ApplyShares(A, y0, y1, y);
  }

  lemma CommitCanonical(A: Matrix, y: Vec)
    requires forall i | 0 <= i < |A| :: |A[i]| == |y|
    ensures forall i | 0 <= i < |A| :: InRange(Apply(A, y)[i], 0, Q - 1) && Canon(Apply(A, y)[i]) == Apply(A, y)[i]
  {
    hide Unhat, Dot;
    forall i | 0 <= i < |A| ensures InRange(Apply(A, y)[i], 0, Q - 1) && Canon(Apply(A, y)[i]) == Apply(A, y)[i] {
      CanonCanon(Unhat(Dot(A[i], y, |y|)));
    }
  }

  lemma CanonCanon(a: Poly)
    ensures Canon(Canon(a)) == Canon(a)
  {
    forall i | 0 <= i < 256 ensures (a[i] % Q) % Q == a[i] % Q { DivModUnique(a[i] % Q, Q, 0, a[i] % Q); }
  }

  /** The masked commitment and its hash. */
  method CommitMasked(p: Params, sig: array<byte>, mu: seq<byte>, y0: Vec, y1: Vec, q: PreparedShares, rng: Rng,
      ghost env: Env, ghost k: SecretKey, ghost sh: KeyShares, ghost y: Vec, ghost t: Attempt)
      returns (w0: Vec, w1: Vec, hi: Vec, ct: seq<byte>)
    requires AttemptOf(p, env, k, q.A, mu, y, t) && q.For(p, k, sh) && sig.Length == p.SigBytes() &&
      SharesVec(y0, y1, y)
    modifies sig, rng
    ensures t.Shape(p) && hi == t.w1 && ct == t.ctilde && sig[..] == Scratch(p, old(sig[..]), t)
    ensures CommitmentShares(p, q.A, y, w0, w1)
  {
    hide VecWithin, Transformed, ZetaTable, PlainVec, Apply, HighPoly, InRange, KeccakSponge.Shake256, MulVec, AddVec,
      SubVec, CentredVec, HintVec, Overlay, SharesPoly, Canon;
    w0, w1 := CommitShares(q.A, y0, y1, y, q.z);
    CommitCanonical(q.A, y);
    hi := RevealVec(w0, w1, Apply(q.A, y), p.GammaDen(), rng);
    assert hi == HighVec(Apply(q.A, y), p.GammaDen());
    RoundRanges(Apply(q.A, y), q.A, y, p.GammaDen());
    var b := StoreW1Vec(p, hi);
    Sizes(p);
    ghost var buf := sig[..];
    WriteFront(sig, b);
    FrontOf(buf, b);
    assert sig[..|b|] == sig[..][..|b|];
    ct := HashTwo(mu, sig[..|b|], p.CTilde());
    WriteFront(sig, ct);
  }

  ghost predicate CommitmentShares(p: Params, A: Matrix, y: Vec, w0: Vec, w1: Vec) {
    MatrixShape(A, p) && |y| == p.L() && SharesVec(w0, w1, Apply(A, y))
  }

  /** From the commitment and its hash on: the masked tests, the hints, the signature. */
  method AnswerMasked(p: Params, env: Env, ct: seq<byte>, y0: Vec, y1: Vec, w0: Vec, w1: Vec, hi: Vec,
      q: PreparedShares, rng: Rng, ghost k: SecretKey, ghost sh: KeyShares, ghost mu: seq<byte>, ghost y: Vec,
        ghost w: Vec, ghost t: Attempt)
      returns (accepted: bool, s: seq<byte>)
    requires env.Valid(p) && q.For(p, k, sh) && |y| == p.L() && |w| == p.K() && t == Respond(p, env, k, mu, y, w)
    requires ct == t.ctilde && hi == t.w1 && SharesVec(y0, y1, y) && SharesVec(w0, w1, w)
    requires forall i | 0 <= i < |w| :: InRange(w[i], 0, Q - 1)
    modifies rng
    ensures accepted == t.Accepted(p) && (accepted ==> s == SigEncode(p, t.ctilde, t.z, t.h))
  {
    hide VecWithin, Transformed, ZetaTable, PlainVec, HighVec, LowVec, InRange, Same, Within, Hat, Bounded, HintWeight,
      SigEncode, AddVec, SubVec, CentredVec, HintVec, MatrixShape, IsHints, SharesPoly, Product, DiffVec, Canon,
      KeccakSponge.Shake256, HighPoly;
    var den := p.GammaDen();
    ghost var c := env.ball(ct);
    ChallengeReady(p, env, ct);
    var ch := PolyNtt(env.ball(ct), q.z);
    s := [];

    var x0, x1 := ShareTimes(ch, q.s10, q.s11, c, sh.s10, sh.s11, k.s1, q.z);
    VecWider(x0, INVERTED, Q);
    VecWider(x1, INVERTED, Q);
    var z0, z1 := ShareSumVec(x0, x1, MulVec(c, k.s1), y0, y1, y);
    var okZ := NormOk(z0, z1, AddVec(y, MulVec(c, k.s1)), p.Gamma1() - p.Beta(), rng);
    if !okZ { return false, s; }

    x0, x1 := ShareTimes(ch, q.s20, q.s21, c, sh.s20, sh.s21, k.s2, q.z);
    VecWider(x0, INVERTED, Q);
    VecWider(x1, INVERTED, Q);
    var v0, v1 := ShareDifferenceVec(x0, x1, MulVec(c, k.s2), w0, w1, w);
    var okR := LowBitsTest(v0, v1, hi, w, MulVec(c, k.s2), den, p.Beta(), rng);
    if !okR { return false, s; }

    x0, x1 := ShareTimes(ch, q.t00, q.t01, c, sh.t00, sh.t01, k.t0, q.z);
    VecWider(x0, INVERTED, Q);
    VecWider(x1, INVERTED, Q);
    var u0, u1 := ShareCanonVec(x0, x1, MulVec(c, k.t0));
    var okU := NormOk(u0, u1, MulVec(c, k.t0), Gamma2(den), rng);
    if !okU { return false, s; }

    accepted, s := FinishMasked(p, ct, z0, z1, v0, v1, u0, u1, hi, rng, w, AddVec(y, MulVec(c, k.s1)), MulVec(c, k.s2),
      MulVec(c, k.t0), t);
  }

  /** The hints and the unmasked z of a candidate that passed the three norm tests. */
  method FinishMasked(p: Params, ct: seq<byte>, z0: Vec, z1: Vec, v0: Vec, v1: Vec, u0: Vec, u1: Vec, hi: Vec, rng: Rng,
      ghost w: Vec, ghost zs: Vec, ghost a: Vec, ghost b: Vec, ghost t: Attempt) returns (accepted: bool, s: seq<byte>)
    requires |w| == |a| == |b| == p.K() && |zs| == p.L() && t.Shape(p)
    requires SharesVec(z0, z1, zs) && SharesVec(v0, v1, SubVec(w, a)) && SharesVec(u0, u1, b)
    requires forall i | 0 <= i < |w| :: InRange(w[i], 0, Q - 1)
    requires hi == t.w1 == HighVec(w, p.GammaDen()) && ct == t.ctilde && t.z == CentredVec(zs)
    requires t.r == CentredVec(SubVec(LowVec(w, p.GammaDen()), a)) && t.u == CentredVec(b)
    requires t.h == HintVec(AddVec(t.r, t.u), t.w1, p.GammaDen())
    requires Bounded(t.z, p.Gamma1() - p.Beta()) && Bounded(t.r, Gamma2(p.GammaDen()) - p.Beta())
    requires Bounded(t.u, Gamma2(p.GammaDen()))
    modifies rng
    ensures accepted == t.Accepted(p) && (accepted ==> s == SigEncode(p, t.ctilde, t.z, t.h))
  {
    hide HighVec, LowVec, InRange, Same, Bounded, HintWeight, SigEncode, CentredVec, HintVec, IsHints, SharesPoly,
      DiffVec, Canon, HighPoly, VecWithin;
    var den := p.GammaDen();
    s := [];
    var g0, g1 := ShareAddVec(v0, v1, SubVec(w, a), u0, u1, b);
    var hu := RevealVec(g0, g1, AddVec(SubVec(w, a), b), den, rng);
    DiffVecIsHint(w, a, b, hu, den, p.Beta());
    var h, n := CompareVec(hu, hi);
    if n > p.Omega() { return false, s; }
    var zz := UnmaskVec(z0, z1, zs);
    ZRange(p, zz);
    s := WriteSig(p, ct, zz, h);
    accepted := true;
  }

  lemma AddShares(v0: Poly, v1: Poly, v: Poly, u0: Poly, u1: Poly, u: Poly)
    requires SharesPoly(v0, v1, v) && SharesPoly(u0, u1, u)
    ensures SharesPoly(Canon(Plus(v0, u0)), Canon(Plus(v1, u1)), Plus(v, u))
  {
    SamePlus(Plus(v0, v1), v, Plus(u0, u1), u);
    SwapMiddle(v0, v1, u0, u1);
    assert Plus(Plus(v0, u0), Plus(v1, u1)) == Plus(Plus(v0, v1), Plus(u0, u1));
    hide Same;
    CanonShares(Plus(v0, u0), Plus(v1, u1), Plus(v, u));
  }

  method ShareAddVec(v0: Vec, v1: Vec, ghost v: Vec, u0: Vec, u1: Vec, ghost u: Vec) returns (g0: Vec, g1: Vec)
    requires SharesVec(v0, v1, v) && SharesVec(u0, u1, u) && |u| == |v|
    ensures SharesVec(g0, g1, AddVec(v, u))
  {
    SharesRange(v0, v1, v);
    SharesRange(u0, u1, u);
    hide Same, Within, Canon, Plus, VecWithin, SharesPoly;
    var t0 := VecAdd(v0, u0, Q, Q);
    VecWider(t0, 2 * Q, 100 * Q);
    g0 := VecCanon(t0);
    var t1 := VecAdd(v1, u1, Q, Q);
    VecWider(t1, 2 * Q, 100 * Q);
    g1 := VecCanon(t1);
    forall i | 0 <= i < |v| ensures SharesPoly(g0[i], g1[i], AddVec(v, u)[i]) {
      AddShares(v0[i], v1[i], v[i], u0[i], u1[i], u[i]);
    }
  }

  // ------------------------------------------------------------ the whole masked signer

  /** One pass of the loop leaves the same bytes as the plain one. */
  method TryMasked(p: Params, env: Env, sig: array<byte>, mu: seq<byte>, rp0: seq<byte>, rp1: seq<byte>, attempt: nat,
      q: PreparedShares, rng: Rng, ghost k: SecretKey, ghost sh: KeyShares) returns (accepted: bool)
    requires env.Valid(p) && q.For(p, k, sh) && sig.Length == p.SigBytes() && attempt < ATTEMPTS && |rp0| == |rp1|
    modifies sig, rng
    ensures Leaves(p, TryOnce(p, env, k, q.A, mu, XorBytes(rp0, rp1), attempt), accepted, old(sig[..]), sig[..])
  {
    hide VecWithin, Transformed, ZetaTable, Apply, Respond, HintWeight, Bounded, Env.Valid, SigEncode, MaskVec, Overlay,
      SharesVec, KeyShares.Of, InRange;
    ghost var t := TryOnce(p, env, k, q.A, mu, XorBytes(rp0, rp1), attempt);
    ghost var y := MaskVec(p, XorBytes(rp0, rp1), attempt);
    ghost var buf := sig[..];
    var y0, y1 := MaskShares(p, rp0, rp1, attempt, rng);
    var w0, w1, hi, ct := CommitMasked(p, sig, mu, y0, y1, q, rng, env, k, sh, y, t);
    CommitCanonical(q.A, y);
    var s;
    accepted, s := AnswerMasked(p, env, ct, y0, y1, w0, w1, hi, q, rng, k, sh, mu, y, Apply(q.A, y), t);
    if accepted {
      WriteFront(sig, s);
      WholeOverlay(buf, s);
    }
  }

  method MaskedAttempts(p: Params, env: Env, sig: array<byte>, mu: seq<byte>, rp0: seq<byte>, rp1: seq<byte>,
      q: PreparedShares, rng: Rng, ghost k: SecretKey, ghost sh: KeyShares) returns (rc: int)
    requires env.Valid(p) && q.For(p, k, sh) && sig.Length == p.SigBytes() && |rp0| == |rp1|
    modifies sig, rng
    ensures (rc, sig[..]) == SignLoop(p, env, k, q.A, mu, XorBytes(rp0, rp1), 0, old(sig[..]))
  {
    hide VecWithin, Transformed, ZetaTable, TryOnce, Env.Valid, Attempt.Accepted, Attempt.Shape, SigEncode, Scratch,
      KeyShares.Of;
    var attempt := 0;
    ghost var start := sig[..];
    ghost var seed := XorBytes(rp0, rp1);
    while attempt < ATTEMPTS
      invariant 0 <= attempt <= ATTEMPTS
      invariant SignLoop(p, env, k, q.A, mu, seed, 0, start) == SignLoop(p, env, k, q.A, mu, seed, attempt, sig[..])
    {
      ghost var before := sig[..];
      var accepted := TryMasked(p, env, sig, mu, rp0, rp1, attempt, q, rng, k, sh);
      LoopStep(p, env, k, q.A, mu, seed, attempt, before, accepted, sig[..]);
      if accepted { return 0; }
      attempt := attempt + 1;
    }
    return -1;
  }

  /** key = k0 xor k1, k0 fresh. */
  method SplitKey(key: seq<byte>, rng: Rng) returns (k0: seq<byte>, k1: seq<byte>)
    modifies rng
    ensures |k0| == |k1| == |key| && XorBytes(k0, k1) == key
    ensures forall i | 0 <= i < |key| :: k0[i] == BitsByte(rng.stream(old(rng.pos) + i)[..8])
  {
    hide XorByte, BitsByte;
    k0 := [];
    for i := 0 to |key|
      invariant |k0| == i && rng.pos == old(rng.pos) + i
      invariant forall k | 0 <= k < i :: k0[k] == BitsByte(rng.stream(old(rng.pos) + k)[..8])
    {
      var r := rng.U32();
      k0 := k0 + [BitsByte(r[..8])];
    }
    k1 := [];
    for i := 0 to |key|
      invariant |k1| == i && forall j | 0 <= j < i :: k1[j] == XorByte(key[j], k0[j])
    {
      k1 := k1 + [XorByte(key[i], k0[i])];
    }
    forall j | 0 <= j < |key| ensures XorBytes(k0, k1)[j] == key[j] { XorBack(key[j], k0[j]); }
  }

  lemma XorBack(a: byte, b: byte)
    ensures XorByte(b, XorByte(a, b)) == a
  {
    var x := Xor(ByteBits(a), ByteBits(b));
    MaskedKeccak.BitsByteBits(x);
    assert Xor(ByteBits(b), x) == ByteBits(a);
    ByteRoundTrip(a);
  }

  /** rho'' = H(K || rnd || mu), K masked; rnd and mu ride on share 0. */
  method MaskedSeed(key: seq<byte>, rnd: seq<byte>, mu: seq<byte>, rng: Rng) returns (rp0: seq<byte>, rp1: seq<byte>)
    modifies rng
    ensures |rp0| == |rp1| == 64 && XorBytes(rp0, rp1) == KeccakSponge.Shake256(key + rnd + mu, 64)
  {
    hide KeccakSponge.Sponge;
    var k0, k1 := SplitKey(key, rng);
    var z := seq<byte>(|rnd| + |mu|, _ => 0);
    XorPublicTail(k0, k1, rnd + mu, z);
    assert k0 + rnd + mu == k0 + (rnd + mu) && key + rnd + mu == key + (rnd + mu);
    rp0, rp1 := MaskedKeccak.SpongeMasked(k0 + rnd + mu, k1 + z, 64, 136, 0x1f, rng);
  }

  /** Both shares of every secret vector, transformed. */
  method PrepareMasked(p: Params, env: Env, k: SecretKey, rng: Rng) returns (q: PreparedShares, ghost sh: KeyShares)
    requires env.Valid(p) && k.Shape(p) && VecWithin(k.s1, Q) && VecWithin(k.s2, Q) && VecWithin(k.t0, Q)
    modifies rng
    ensures q.For(p, k, sh) && q.A == ExpandA(p, env, k.rho)
  {
    hide VecWithin, Transformed, ZetaTable, SharesVec;
    var s10, s11 := SplitVec(k.s1, rng);
    var s20, s21 := SplitVec(k.s2, rng);
    var t00, t01 := SplitVec(k.t0, rng);
    SharesRange(s10, s11, k.s1);
    SharesRange(s20, s21, k.s2);
    SharesRange(t00, t01, k.t0);
    sh := KeyShares(s10, s11, s20, s21, t00, t01);
    var z := BuildZetas();
    var A := MatrixExpand(p, env, k.rho);
    MatrixRange(p, env, k.rho);
    var a0 := VecNtt(s10, z);
    var b0 := VecNtt(s20, z);
    var c0 := VecNtt(t00, z);
    var a1 := VecNtt(s11, z);
    var b1 := VecNtt(s21, z);
    var c1 := VecNtt(t01, z);
    q := PreparedShares(A, a0, a1, b0, b1, c0, c1, z);
  }

  /** The masked signer returns what the plain one does, whatever the random stream. */
  method SignMessageMasked(p: Params, env: Env, sig: array<byte>, mu: seq<byte>, rnd: seq<byte>, sk: seq<byte>,
      rng: Rng)
      returns (rc: int)
    requires env.Valid(p) && sig.Length == p.SigBytes() && |sk| == p.SkBytes()
    modifies sig, rng
    ensures (rc, sig[..]) == SignMu(p, env, mu, rnd, sk, old(sig[..]))
  {
    hide UnpackSk, VecWithin, SignLoop, Bounded, Env.Valid, KeccakSponge.Shake256, PreparedShares.For;
    var k := ReadSk(p, sk);
    KeyRange(p, sk);
    var bad := VecChkNorm(k.s1, p.Eta() + 1);
    if bad { return -1; }
    bad := VecChkNorm(k.s2, p.Eta() + 1);
    if bad { return -1; }
    var q, sh := PrepareMasked(p, env, k, rng);
    var rp0, rp1 := MaskedSeed(k.key, rnd, mu, rng);
    rc := MaskedAttempts(p, env, sig, mu, rp0, rp1, q, rng, k, sh);
  }
}
