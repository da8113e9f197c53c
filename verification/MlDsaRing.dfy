/** Z_q[X]/(X^256 + 1) as ML-DSA's transforms see it: polynomials up to congruence mod q,
    with the product carried out on transforms. */
module MlDsaRing {
  import opened ModArith
  import opened MlDsaModulus
  import opened NttTree
  import opened NegacyclicRing
  import opened ZetaTree
  import opened NttLoop
  import opened MlDsaArith
  import opened MlDsaNtt

  /** 256 coefficients, equal mod q. */
  ghost predicate Same(a: seq<int>, b: seq<int>) {
    |a| == |b| == 256 && CongSeq(a, b, Q)
  }

  lemma SameRefl(a: seq<int>)
    requires |a| == 256
    ensures Same(a, a)
  {
    CongSeqRefl(a, Q);
  }

  lemma SameSym(a: seq<int>, b: seq<int>)
    requires Same(a, b)
    ensures Same(b, a)
  {
    CongSeqSym(a, b, Q);
  }

  lemma SameTrans(a: seq<int>, b: seq<int>, c: seq<int>)
    requires Same(a, b) && Same(b, c)
    ensures Same(a, c)
  {
    CongSeqTrans(a, b, c, Q);
  }

  lemma SamePlus(a: seq<int>, b: seq<int>, c: seq<int>, e: seq<int>)
    requires Same(a, b) && Same(c, e)
    ensures Same(Plus(a, c), Plus(b, e))
  {
    CongSeqPlus(a, b, c, e, Q);
  }

  lemma SameScale(s: int, a: seq<int>, b: seq<int>)
    requires Same(a, b)
    ensures Same(Scale(s, a), Scale(s, b))
  {
    ScaleCong(s, a, b, Q);
  }

  /** Scaling by congruent factors. */
  lemma SameFactor(s: int, t: int, a: seq<int>)
    requires Cong(s, t, Q) && |a| == 256
    ensures Same(Scale(s, a), Scale(t, a))
  {
    forall i | 0 <= i < 256 ensures Cong(Scale(s, a)[i], Scale(t, a)[i], Q) {
      CongScale(a[i], s, t, Q);
      assert a[i] * s == s * a[i] && a[i] * t == t * a[i];
    }
  }

  lemma SamePointwise(a: seq<int>, b: seq<int>, c: seq<int>, e: seq<int>)
    requires Same(a, b) && Same(c, e)
    ensures Same(Pointwise(a, c), Pointwise(b, e))
  {
    hide Cong;
    forall i | 0 <= i < 256
      ensures Cong(Pointwise(a, c)[i], Pointwise(b, e)[i], Q)
    {
      CongMul(a[i], b[i], c[i], e[i], Q);
    }
  }

  function Minus(a: seq<int>, b: seq<int>): (r: seq<int>)
    requires |a| == |b|
    ensures |r| == |a| && forall i | 0 <= i < |a| :: r[i] == a[i] - b[i]
  {
    seq(|a|, i requires 0 <= i < |a| => a[i] - b[i])
  }

  lemma SameMinus(a: seq<int>, b: seq<int>, c: seq<int>, e: seq<int>)
    requires Same(a, b) && Same(c, e)
    ensures Same(Minus(a, c), Minus(b, e))
  {
    hide Cong;
    forall i | 0 <= i < 256 ensures Cong(Minus(a, c)[i], Minus(b, e)[i], Q) { CongSub(a[i], b[i], c[i], e[i], Q); }
  }

  /** The canonical representative. */
  function Canon(a: seq<int>): (r: seq<int>)
    ensures |r| == |a| && forall i | 0 <= i < |a| :: r[i] == a[i] % Q && 0 <= r[i] < Q
  {
    seq(|a|, i requires 0 <= i < |a| => a[i] % Q)
  }

  lemma CanonSame(a: seq<int>)
    requires |a| == 256
    ensures Same(Canon(a), a) && Same(a, Canon(a))
  {
    hide Cong;
    forall i | 0 <= i < 256 ensures Cong(Canon(a)[i], a[i], Q) && Cong(a[i], Canon(a)[i], Q) { CongMod(a[i], Q); }
  }

  lemma CanonUnique(a: seq<int>, b: seq<int>)
    requires Same(a, b)
    ensures Canon(a) == Canon(b)
  {
    hide Cong;
    forall i | 0 <= i < 256 ensures Canon(a)[i] == Canon(b)[i] { CongSameMod(a[i], b[i], Q); }
  }

  // ------------------------------------------------------------ the transforms

  lemma Shape()
    ensures Size(1, 8) == 256 && Pow2(8) == 256
  {
    SizeIsProduct(1, 8);
    Pow2Values();
  }

  lemma HatIs(a: seq<int>, d: nat)
    requires |a| == 256 && d == 8
    ensures Size(1, d) == 256 && Pow2(d) == 256 && Hat(a) == Forward(a, 1, d, 1, Z())
  {
    hide Forward, Z;
    Shape();
  }

  lemma UnhatIs(a: seq<int>, d: nat)
    requires |a| == 256 && d == 8
    ensures Size(1, d) == 256 && Pow2(d) == 256 && Unhat(a) == Scale(NINV, Inverse(a, 1, d, 1, ZI()))
  {
    hide Inverse, ZI;
    Shape();
  }

  lemma HatSame(a: seq<int>, b: seq<int>)
    requires Same(a, b)
    ensures Same(Hat(a), Hat(b))
  {
    hide Forward, Z, ZI, CongSeq, Size, Hat;
    var d: nat :| d == 8;
    HatIs(a, d);
    HatIs(b, d);
    ForwardCong(a, b, 1, d, 1, Z(), Q);
  }

  lemma HatPlus(a: seq<int>, b: seq<int>)
    requires |a| == |b| == 256
    ensures Hat(Plus(a, b)) == Plus(Hat(a), Hat(b))
  {
    hide Plus, Scale, Forward, Z, ZI, CongSeq, Size, Hat;
    var d: nat :| d == 8;
    HatIs(a, d);
    HatIs(b, d);
    HatIs(Plus(a, b), d);
    ForwardPlus(a, b, 1, d, 1, Z());
  }

  lemma HatScale(s: int, a: seq<int>)
    requires |a| == 256
    ensures Hat(Scale(s, a)) == Scale(s, Hat(a))
  {
    hide Scale, Plus, Forward, Z, ZI, CongSeq, Size, Hat;
    var d: nat :| d == 8;
    HatIs(a, d);
    HatIs(Scale(s, a), d);
    ForwardScale(s, a, 1, d, 1, Z());
  }

  lemma UnhatSame(a: seq<int>, b: seq<int>)
    requires Same(a, b)
    ensures Same(Unhat(a), Unhat(b))
  {
    hide Inverse, Z, ZI, CongSeq, Size, Unhat;
    var d: nat :| d == 8;
    UnhatIs(a, d);
    UnhatIs(b, d);
    InverseCong(a, b, 1, d, 1, ZI(), Q);
    ScaleCong(NINV, Inverse(a, 1, d, 1, ZI()), Inverse(b, 1, d, 1, ZI()), Q);
  }

  lemma UnhatPlus(a: seq<int>, b: seq<int>)
    requires |a| == |b| == 256
    ensures Unhat(Plus(a, b)) == Plus(Unhat(a), Unhat(b))
  {
    hide Plus, Scale, Inverse, Z, ZI, CongSeq, Size, Unhat;
    var d: nat :| d == 8;
    UnhatIs(a, d);
    UnhatIs(b, d);
    UnhatIs(Plus(a, b), d);
    InversePlus(a, b, 1, d, 1, ZI());
    ScalePlus(NINV, Inverse(a, 1, d, 1, ZI()), Inverse(b, 1, d, 1, ZI()));
  }

  lemma ScalePlus(s: int, a: seq<int>, b: seq<int>)
    requires |a| == |b|
    ensures Scale(s, Plus(a, b)) == Plus(Scale(s, a), Scale(s, b))
  {
    forall i | 0 <= i < |a|
      ensures Scale(s, Plus(a, b))[i] == Plus(Scale(s, a), Scale(s, b))[i]
    {
      Distribute(s, a[i], b[i]);
    }
  }

  /** 256 * 256^-1 = 1. */
  lemma Unscale(a: seq<int>)
    requires |a| == 256
    ensures Same(Scale(NINV, Scale(256, a)), a) && Same(Scale(256, Scale(NINV, a)), a)
  {
    ScaleScale(NINV, 256, a);
    ScaleScale(256, NINV, a);
    CongIntro(NINV * 256, 1, Q, (NINV * 256 - 1) / Q);
    SameFactor(NINV * 256, 1, a);
    assert Scale(1, a) == a;
  }

  lemma UnhatHat(a: seq<int>)
    requires |a| == 256
    ensures Same(Unhat(Hat(a)), a)
  {
    hide Forward, Inverse, Z, ZI, CongSeq, Size, Unhat, Hat, Reciprocal, Compatible;
    var d: nat :| d == 8;
    HatIs(a, d);
    UnhatIs(Hat(a), d);
    TreeFacts();
    InverseForward(a, 1, d, 1, Z(), ZI(), Q);
    ScaleCong(NINV, Inverse(Hat(a), 1, d, 1, ZI()), Scale(256, a), Q);
    Unscale(a);
    SameTrans(Unhat(Hat(a)), Scale(NINV, Scale(256, a)), a);
  }

  lemma HatUnhat(r: seq<int>)
    requires |r| == 256
    ensures Same(Hat(Unhat(r)), r)
  {
    hide Forward, Inverse, Z, ZI, CongSeq, Size, Unhat, Hat, Reciprocal, Compatible;
    var d: nat :| d == 8;
    UnhatIs(r, d);
    var v := Inverse(r, 1, d, 1, ZI());
    HatIs(v, d);
    HatScale(NINV, v);
    TreeFacts();
    ForwardInverse(r, 1, d, 1, Z(), ZI(), Q);
    ScaleCong(NINV, Hat(v), Scale(256, r), Q);
    Unscale(r);
    SameTrans(Hat(Unhat(r)), Scale(NINV, Scale(256, r)), r);
  }

  /** Transforms multiply pointwise. */
  lemma HatProduct(a: seq<int>, b: seq<int>)
    requires |a| == |b| == 256
    ensures Same(Hat(Product(a, b)), Pointwise(Hat(a), Hat(b)))
  {
    hide Pointwise, Forward, Z, ZI, CongSeq, Size, Hat, Reciprocal, Compatible, Product;
    var d: nat :| d == 8;
    HatIs(a, d);
    HatIs(b, d);
    HatIs(Product(a, b), d);
    TreeFacts();
    ForwardOfProduct(a, b, 8, Z(), Q);
  }

  /** The inverse transform of the pointwise product of two forward transforms is the
      negacyclic product. */
  lemma ProductByTransform(a: seq<int>, b: seq<int>)
    requires |a| == |b| == 256
    ensures Same(Unhat(Pointwise(Hat(a), Hat(b))), Product(a, b))
  {
    hide Unhat, Hat, Product, Pointwise, CongSeq, Same;
    HatProduct(a, b);
    SameLength(Hat(Product(a, b)), Pointwise(Hat(a), Hat(b)));
    UnhatSame(Hat(Product(a, b)), Pointwise(Hat(a), Hat(b)));
    UnhatHat(Product(a, b));
    SameSym(Unhat(Hat(Product(a, b))), Unhat(Pointwise(Hat(a), Hat(b))));
    SameTrans(Unhat(Pointwise(Hat(a), Hat(b))), Unhat(Hat(Product(a, b))), Product(a, b));
  }

  lemma SameLength(a: seq<int>, b: seq<int>)
    requires Same(a, b)
    ensures |a| == |b| == 256
  {
  }

  /** Polynomials with congruent transforms are congruent. */
  lemma HatInjective(a: seq<int>, b: seq<int>)
    requires |a| == |b| == 256 && Same(Hat(a), Hat(b))
    ensures Same(a, b)
  {
    hide Unhat, Hat, CongSeq, Same;
    UnhatSame(Hat(a), Hat(b));
    UnhatHat(a);
    UnhatHat(b);
    SameSym(Unhat(Hat(a)), a);
    SameTrans(a, Unhat(Hat(a)), Unhat(Hat(b)));
    SameTrans(a, Unhat(Hat(b)), b);
  }

  // ------------------------------------------------------------ the code's Montgomery factors

  /** A Montgomery product carries 2^-32, which the inverse transform's 2^32 cancels. */
  lemma MontgomeryCancels(p: seq<int>, s: seq<int>, out: seq<int>)
    requires |s| == 256 && Same(p, Scale(RINV, s)) && Same(out, Scale(R, Unhat(p)))
    ensures Same(out, Unhat(s))
  {
    hide Unhat, CongSeq, Same;
    SameLength(p, Scale(RINV, s));
    UnhatSame(p, Scale(RINV, s));
    UnhatScale(RINV, s);
    SameTrans(Unhat(p), Unhat(Scale(RINV, s)), Scale(RINV, Unhat(s)));
    SameScale(R, Unhat(p), Scale(RINV, Unhat(s)));
    SameTrans(out, Scale(R, Unhat(p)), Scale(R, Scale(RINV, Unhat(s))));
    FactorsCancel(Unhat(s));
    SameTrans(out, Scale(R, Scale(RINV, Unhat(s))), Unhat(s));
  }

  lemma FactorsCancel(a: seq<int>)
    requires |a| == 256
    ensures Same(Scale(R, Scale(RINV, a)), a)
  {
    ScaleScale(R, RINV, a);
    CongIntro(R * RINV, 1, Q, (R * RINV - 1) / Q);
    SameFactor(R * RINV, 1, a);
    assert Scale(1, a) == a;
  }

  lemma UnhatScale(s: int, a: seq<int>)
    requires |a| == 256
    ensures Same(Unhat(Scale(s, a)), Scale(s, Unhat(a)))
  {
    hide Unhat, Hat, CongSeq, Same;
    HatUnhat(a);
    HatScale(s, Unhat(a));
    SameScale(s, Hat(Unhat(a)), a);
    SameLength(Hat(Unhat(a)), a);
    SameSym(Scale(s, Hat(Unhat(a))), Scale(s, a));
    UnhatSame(Scale(s, a), Hat(Scale(s, Unhat(a))));
    UnhatHat(Scale(s, Unhat(a)));
    SameTrans(Unhat(Scale(s, a)), Unhat(Hat(Scale(s, Unhat(a)))), Scale(s, Unhat(a)));
  }
}
