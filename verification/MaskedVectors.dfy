/** Polynomials and vectors in two arithmetic shares: splitting, the public linear maps applied
    share by share, and the gadgets run 32 lanes at a time. */
module MaskedVectors {
  import opened ModArith
  import opened MlDsaModulus
  import opened Bits
  import opened NttTree
  import opened NegacyclicRing
  import opened NttLoop
  import opened MlDsaArith
  import opened MlDsaNtt
  import opened MlDsaRing
  import opened MlDsaParams
  import opened MlDsaRounding
  import opened MlDsaPacking
  import opened MlDsaScheme
  import opened MlDsaVectors
  import opened MaskedGadgets
  import opened MaskedConversions
  import opened MaskedDsa
  import MlDsaCorrect

  /** Two canonical polynomials that add up to v mod q. */
  ghost predicate SharesPoly(a0: Poly, a1: Poly, v: Poly) {
    InRange(a0, 0, Q - 1) && InRange(a1, 0, Q - 1) && Same(Plus(a0, a1), v)
  }

  ghost predicate SharesVec(m0: Vec, m1: Vec, v: Vec) {
    |m0| == |m1| == |v| && forall i | 0 <= i < |v| :: SharesPoly(m0[i], m1[i], v[i])
  }

  // ------------------------------------------------------------ canonical form and splitting

  /** caddq of reduce32. */
  function CanonOf(a: int): int { Caddq(Reduce32(a)) }

  lemma CanonOfIs(a: int)
    requires -0x8000_0000 <= a <= 0x8000_0000 - 4194304 - 1
    ensures CanonOf(a) == a % Q
  {
    hide Reduce32, Caddq, Cong;
    Reduce32Contract(a);
    CaddqContract(Reduce32(a));
    CongSameMod(Reduce32(a), a, Q);
  }

  method PolyCanon(a: Poly) returns (r: Poly)
    requires Within(a, 100 * Q)
    ensures r == Canon(a)
  {
    hide CanonOf;
    var s: seq<int> := [];
    for i := 0 to 256
      invariant |s| == i && forall k | 0 <= k < i :: s[k] == a[k] % Q
    {
      CanonOfIs(a[i]);
      s := s + [CanonOf(a[i])];
    }
    r := s;
  }

  method VecCanon(v: Vec) returns (r: Vec)
    requires VecWithin(v, 100 * Q)
    ensures |r| == |v| && forall i | 0 <= i < |r| :: r[i] == Canon(v[i])
  {
    hide Within, Canon;
    r := [];
    for i := 0 to |v|
      invariant |r| == i && forall k | 0 <= k < i :: r[k] == Canon(v[k])
    {
      var t := PolyCanon(v[i]);
      r := r + [t];
    }
  }

  /** A fresh share and the rest. */
  lemma SplitScalar(v: int, r: int)
    requires 0 <= r < Q
    ensures var s := CaddMod(v % Q - r, Q);
      0 <= s < Q && Cong(r + s, v, Q)
  {
    CongMod(v, Q);
    var s := CaddMod(v % Q - r, Q);
    CongIntro(r + s, v % Q, Q, if v % Q < r then 1 else 0);
    CongTrans(r + s, v % Q, v, Q);
  }

  method SplitPoly(v: Poly, rng: Rng) returns (a0: Poly, a1: Poly)
    requires Within(v, Q)
    modifies rng
    ensures SharesPoly(a0, a1, v)
    ensures rng.pos == old(rng.pos) + 512
    ensures forall k | 0 <= k < 256 :: a0[k] == Residue64(rng, old(rng.pos) + 2 * k, Q)
  {
    hide Cong, CaddMod, CanonOf, Residue64;
    var s: seq<int> := [];
    for i := 0 to 256
      invariant |s| == i && forall k | 0 <= k < i :: 0 <= s[k] < Q
      invariant rng.pos == old(rng.pos) + 2 * i
      invariant forall k | 0 <= k < i :: s[k] == Residue64(rng, old(rng.pos) + 2 * k, Q)
    {
      var r := RandMod(rng, Q);
      s := s + [r];
    }
    var t: seq<int> := [];
    for i := 0 to 256
      invariant |t| == i && forall k | 0 <= k < i :: 0 <= t[k] < Q && Cong(s[k] + t[k], v[k], Q)
      invariant rng.pos == old(rng.pos) + 512
    {
      CanonOfIs(v[i]);
      SplitScalar(v[i], s[i]);
      t := t + [CaddMod(CanonOf(v[i]) - s[i], Q)];
    }
    a0, a1 := s, t;
  }

  method SplitVec(v: Vec, rng: Rng) returns (m0: Vec, m1: Vec)
    requires VecWithin(v, Q)
    modifies rng
    ensures SharesVec(m0, m1, v)
  {
    hide Within, SharesPoly;
    m0, m1 := [], [];
    for i := 0 to |v|
      invariant |m0| == |m1| == i && forall k | 0 <= k < i :: SharesPoly(m0[k], m1[k], v[k])
    {
      var a, b := SplitPoly(v[i], rng);
      m0, m1 := m0 + [a], m1 + [b];
    }
  }

  lemma SharesRange(m0: Vec, m1: Vec, v: Vec)
    requires SharesVec(m0, m1, v)
    ensures VecWithin(m0, Q) && VecWithin(m1, Q) && |m0| == |m1| == |v|
  {
    hide Same;
    forall i | 0 <= i < |v| ensures Within(m0[i], Q) && Within(m1[i], Q) { assert SharesPoly(m0[i], m1[i], v[i]); }
  }

  /** Canonical forms of two polynomials that add up to v mod q. */
  lemma CanonShares(x0: Poly, x1: Poly, v: Poly)
    requires Same(Plus(x0, x1), v)
    ensures SharesPoly(Canon(x0), Canon(x1), v)
  {
    hide Same, Plus;
    CanonSame(x0);
    CanonSame(x1);
    SamePlus(Canon(x0), x0, Canon(x1), x1);
    SameTrans(Plus(Canon(x0), Canon(x1)), Plus(x0, x1), v);
  }

  // ------------------------------------------------------------ linear maps on shares

  lemma {:induction false} DotShares(row: Vec, y0: Vec, y1: Vec, y: Vec, n: nat)
    requires SharesVec(y0, y1, y) && n <= |y| && n <= |row|
    ensures Same(Plus(Dot(row, y0, n), Dot(row, y1, n)), Dot(row, y, n))
  {
    hide Same, Hat, Pointwise, Plus;
    if n == 0 {
      ZeroSum();
    } else {
      var k := n - 1;
      assert SharesPoly(y0[k], y1[k], y[k]);
      DotShares(row, y0, y1, y, k);
      HatPlus(y0[k], y1[k]);
      HatSame(Plus(y0[k], y1[k]), y[k]);
      SameRefl(row[k]);
      SamePointwise(row[k], row[k], Plus(Hat(y0[k]), Hat(y1[k])), Hat(y[k]));
      PointwisePlus(row[k], Hat(y0[k]), Hat(y1[k]));
      var a, b, a', b' := Dot(row, y0, k), Dot(row, y1, k), Pointwise(row[k], Hat(y0[k])),
        Pointwise(row[k], Hat(y1[k]));
      SamePlus(Plus(a, b), Dot(row, y, k), Plus(a', b'), Pointwise(row[k], Hat(y[k])));
      SwapMiddle(a, a', b, b');
    }
  }

  lemma ZeroSum()
    ensures Same(Plus(ZeroPoly(), ZeroPoly()), ZeroPoly())
  {
    assert Plus(ZeroPoly(), ZeroPoly()) == ZeroPoly();
    SameRefl(ZeroPoly());
  }

  lemma PointwisePlus(a: Poly, x: Poly, y: Poly)
    ensures Pointwise(a, Plus(x, y)) == Plus(Pointwise(a, x), Pointwise(a, y))
  {
    forall i | 0 <= i < 256 ensures Pointwise(a, Plus(x, y))[i] == Plus(Pointwise(a, x), Pointwise(a, y))[i] {
      NttTree.Distribute(a[i], x[i], y[i]);
    }
  }

  lemma SwapMiddle(a: Poly, a': Poly, b: Poly, b': Poly)
    ensures Plus(Plus(a, a'), Plus(b, b')) == Plus(Plus(a, b), Plus(a', b'))
  {
  }

  /** A applied share by share gives shares of A applied. */
  lemma ApplyShares(A: Matrix, y0: Vec, y1: Vec, y: Vec)
    requires SharesVec(y0, y1, y) && forall i | 0 <= i < |A| :: |A[i]| == |y|
    ensures SharesVec(Apply(A, y0), Apply(A, y1), Apply(A, y))
  {
    hide Same, Dot, Unhat, SharesPoly, Canon;
    forall i | 0 <= i < |A| ensures SharesPoly(Apply(A, y0)[i], Apply(A, y1)[i], Apply(A, y)[i]) {
      DotShares(A[i], y0, y1, y, |y|);
      UnhatShares(Dot(A[i], y0, |y|), Dot(A[i], y1, |y|), Dot(A[i], y, |y|));
    }
  }

  lemma UnhatShares(d0: Poly, d1: Poly, d: Poly)
    requires Same(Plus(d0, d1), d)
    ensures SharesPoly(Canon(Unhat(d0)), Canon(Unhat(d1)), Canon(Unhat(d)))
  {
    hide Same, Plus, Unhat, Canon, SharesPoly;
    UnhatSame(Plus(d0, d1), d);
    UnhatPlus(d0, d1);
    CanonSame(Unhat(d));
    SameTrans(Plus(Unhat(d0), Unhat(d1)), Unhat(d), Canon(Unhat(d)));
    CanonShares(Unhat(d0), Unhat(d1), Canon(Unhat(d)));
  }

  /** c times a sharing. */
  lemma ProductShares(c: Poly, s0: Poly, s1: Poly, s: Poly, x0: Poly, x1: Poly)
    requires Same(Plus(s0, s1), s) && Same(x0, Product(c, s0)) && Same(x1, Product(c, s1))
    ensures Same(Plus(x0, x1), Product(c, s))
  {
    hide Same, Plus, Product, Hat, Pointwise;
    var ch := Hat(c);
    HatSame(x0, Product(c, s0));
    HatSame(x1, Product(c, s1));
    HatProduct(c, s0);
    HatProduct(c, s1);
    HatProduct(c, s);
    SameTrans(Hat(x0), Hat(Product(c, s0)), Pointwise(ch, Hat(s0)));
    SameTrans(Hat(x1), Hat(Product(c, s1)), Pointwise(ch, Hat(s1)));
    SamePlus(Hat(x0), Pointwise(ch, Hat(s0)), Hat(x1), Pointwise(ch, Hat(s1)));
    HatPlus(x0, x1);
    PointwisePlus(ch, Hat(s0), Hat(s1));
    HatPlus(s0, s1);
    HatSame(Plus(s0, s1), s);
    SameRefl(ch);
    SamePointwise(ch, ch, Plus(Hat(s0), Hat(s1)), Hat(s));
    SameTrans(Hat(Plus(x0, x1)), Pointwise(ch, Plus(Hat(s0), Hat(s1))), Pointwise(ch, Hat(s)));
    SameSym(Hat(Product(c, s)), Pointwise(ch, Hat(s)));
    SameTrans(Hat(Plus(x0, x1)), Pointwise(ch, Hat(s)), Hat(Product(c, s)));
    HatInjective(Plus(x0, x1), Product(c, s));
  }

  // ------------------------------------------------------------ what shares decide

  /** The secret: the canonical residue of the sum. */
  function JoinPoly(a0: Poly, a1: Poly): Poly { Canon(Plus(a0, a1)) }

  lemma JoinIs(a0: Poly, a1: Poly, v: Poly)
    requires SharesPoly(a0, a1, v)
    ensures JoinPoly(a0, a1) == Canon(v)
  {
    hide Same;
    CanonUnique(Plus(a0, a1), v);
  }

  /** The centred residue is a function of the residue class. */
  lemma CentredCong(x: int, y: int)
    requires Cong(x, y, Q)
    ensures Centred(x) == Centred(y)
  {
    hide Cong, Centred;
    var a, b := Centred(x), Centred(y);
    CongTrans(a, x, y, Q);
    CongSym(b, y, Q);
    CongTrans(a, y, b, Q);
    CongUnique(a, b, Q);
  }

  lemma CentredSameIs(x: Poly, v: Poly)
    requires Same(x, v)
    ensures CentredPoly(x) == CentredPoly(v)
  {
    hide Cong, Centred;
    forall i | 0 <= i < 256 ensures CentredPoly(x)[i] == CentredPoly(v)[i] { CentredCong(x[i], v[i]); }
  }

  predicate SmallPoly(x: Poly, B: int) { forall j | 0 <= j < 256 :: Small(x[j], B) }

  lemma SmallIsCentred(x: Poly, B: int)
    ensures SmallPoly(x, B) <==> InRange(CentredPoly(x), 1 - B, B - 1)
  {
    hide Centred;
    forall j | 0 <= j < 256 ensures Small(x[j], B) <==> 1 - B <= CentredPoly(x)[j] <= B - 1 { }
  }

  /** HighBits of every secret of one polynomial, 32 lanes at a time. */
  method RevealPoly(a0: Poly, a1: Poly, den: Den, rng: Rng) returns (h: Poly)
    requires InRange(a0, 0, Q - 1) && InRange(a1, 0, Q - 1)
    modifies rng
    ensures h == HighPoly(JoinPoly(a0, a1), den)
  {
    hide Decompose, BPrime, Lane;
    var s: seq<int> := [];
    for g := 0 to 8
      invariant |s| == 32 * g
      invariant forall k | 0 <= k < 32 * g :: s[k] == HighBits(JoinPoly(a0, a1)[k], den)
    {
      var b0, b1 := a0[32 * g..32 * g + 32], a1[32 * g..32 * g + 32];
      var bp := DsaBPrime(b0, b1, den, rng);
      BPrimeLanes(bp, b0, b1, den);
      var w := DsaRevealHighBits(bp, den, rng);
      RevealedLanes(bp, b0, b1, w, den);
      s := s + w;
    }
    h := s;
  }

  lemma BPrimeLanes(bp: Bs, b0: seq<int>, b1: seq<int>, den: Den)
    requires bp.Fits(DSA.bits) && |b0| == |b1| == LANES
    requires forall j | 0 <= j < LANES :: bp.Low(j, DSA.bits) == BPrime(Unshared(b0, b1, j), den)
    ensures forall j | 0 <= j < LANES :: bp.Low(j, DSA.bits) < Q - 1
  {
    hide Lane;
    forall j | 0 <= j < LANES ensures bp.Low(j, DSA.bits) < Q - 1 {
      CongMod(b0[j] + b1[j], Q);
      assert 0 <= Unshared(b0, b1, j) < Q;
    }
  }

  lemma RevealedLanes(bp: Bs, b0: seq<int>, b1: seq<int>, w: seq<int>, den: Den)
    requires bp.Fits(DSA.bits) && |b0| == |b1| == |w| == LANES
    requires forall j | 0 <= j < LANES :: bp.Low(j, DSA.bits) == BPrime(Unshared(b0, b1, j), den)
    requires forall j | 0 <= j < LANES :: w[j] == bp.Low(j, DSA.bits) / (2 * Gamma2(den))
    ensures forall j | 0 <= j < LANES :: w[j] == HighBits((b0[j] + b1[j]) % Q, den)
  {
    hide Lane, Decompose, BPrime;
    forall j | 0 <= j < LANES ensures w[j] == HighBits((b0[j] + b1[j]) % Q, den) {
      CongMod(b0[j] + b1[j], Q);
      BPrimeHighBits(Unshared(b0, b1, j), den);
    }
  }

  method RevealVec(m0: Vec, m1: Vec, ghost v: Vec, den: Den, rng: Rng) returns (h: Vec)
    requires SharesVec(m0, m1, v)
    modifies rng
    ensures |h| == |v| && forall i | 0 <= i < |h| :: h[i] == HighPoly(Canon(v[i]), den)
  {
    hide Same, HighPoly, Canon;
    h := [];
    for i := 0 to |m0|
      invariant |h| == i && forall k | 0 <= k < i :: h[k] == HighPoly(Canon(v[k]), den)
    {
      assert SharesPoly(m0[i], m1[i], v[i]);
      JoinIs(m0[i], m1[i], v[i]);
      var t := RevealPoly(m0[i], m1[i], den, rng);
      h := h + [t];
    }
  }

  /** The norm test of a vector of shares: one bit. */
  method NormOk(m0: Vec, m1: Vec, ghost v: Vec, B: int, rng: Rng) returns (ok: bool)
    requires SharesVec(m0, m1, v) && 0 < B <= Q / 2
    modifies rng
    ensures ok <==> Bounded(CentredVec(v), B)
  {
    hide Same, SmallPoly, CentredPoly, InRange, Small;
    var acc := new AllOk();
    for i := 0 to |m0|
      invariant fresh(acc) && acc.AllSet() == forall k | 0 <= k < i :: InRange(CentredPoly(v[k]), 1 - B, B - 1)
    {
      assert SharesPoly(m0[i], m1[i], v[i]);
      SharesNorm(m0[i], m1[i], v[i], B);
      DsaNormAcc(acc, m0[i], m1[i], B, rng);
    }
    ok := acc.Reveal(rng);
    BoundedCentred(v, B);
  }

  lemma BoundedCentred(v: Vec, B: int)
    ensures Bounded(CentredVec(v), B) <==> forall k | 0 <= k < |v| :: InRange(CentredPoly(v[k]), 1 - B, B - 1)
  {
    hide InRange, CentredPoly;
    forall k | 0 <= k < |v| ensures CentredVec(v)[k] == CentredPoly(v[k]) { }
  }

  lemma SharesNorm(a0: Poly, a1: Poly, v: Poly, B: int)
    requires SharesPoly(a0, a1, v)
    ensures (forall i | 0 <= i < 256 :: Small(a0[i] + a1[i], B)) <==> InRange(CentredPoly(v), 1 - B, B - 1)
    ensures forall i | 0 <= i < 256 :: 0 <= a0[i] < Q && 0 <= a1[i] < Q
  {
    hide Same, Small, CentredPoly;
    SmallIsCentred(Plus(a0, a1), B);
    CentredSameIs(Plus(a0, a1), v);
    assert SmallPoly(Plus(a0, a1), B) <==> forall i | 0 <= i < 256 :: Small(a0[i] + a1[i], B) by {
      assert forall i | 0 <= i < 256 :: Plus(a0, a1)[i] == a0[i] + a1[i];
    }
  }
}
