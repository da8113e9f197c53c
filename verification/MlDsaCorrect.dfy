/** A signature made under a generated key verifies: A z - c t1 2^13 = w - c s2 + c t0 in the
    ring, the hints, and the packing round trips. */
module MlDsaCorrect {
  import opened Options
  import opened ModArith
  import opened MlDsaModulus
  import opened Bits
  import opened Radix
  import opened NttTree
  import opened NegacyclicRing
  import opened MlDsaNtt
  import opened MlDsaRing
  import opened MlDsaParams
  import opened MlDsaRounding
  import opened MlDsaPacking
  import opened MlDsaHints
  import opened MlDsaScheme
  import KeccakSponge

  // ------------------------------------------------------------ the row identity

  lemma PointwiseLinear(a: Poly, c: Poly, y: Poly, s: Poly)
    ensures Pointwise(a, Plus(y, Pointwise(c, s))) == Plus(Pointwise(a, y), Pointwise(c, Pointwise(a, s)))
  {
    forall i | 0 <= i < 256
      ensures Pointwise(a, Plus(y, Pointwise(c, s)))[i] == Plus(Pointwise(a, y), Pointwise(c, Pointwise(a, s)))[i]
    {
      LinearScalar(a[i], c[i], y[i], s[i]);
    }
  }

  lemma LinearScalar(a: int, c: int, y: int, s: int)
    ensures a * (y + c * s) == a * y + c * (a * s)
  {
    assert a * (c * s) == c * (a * s);
  }

  /** z = y + c s1, component by component. */
  ghost predicate Responds(z: Vec, y: Vec, c: Poly, s1: Vec) {
    |z| == |y| == |s1| && forall j | 0 <= j < |z| :: Same(z[j], Plus(y[j], Product(c, s1[j])))
  }

  lemma HatResponse(z: Poly, y: Poly, c: Poly, s: Poly)
    requires Same(z, Plus(y, Product(c, s)))
    ensures Same(Hat(z), Plus(Hat(y), Pointwise(Hat(c), Hat(s))))
  {
    hide Hat, Product, Same;
    HatSame(z, Plus(y, Product(c, s)));
    HatPlus(y, Product(c, s));
    HatProduct(c, s);
    SameRefl(Hat(y));
    SamePlus(Hat(y), Hat(y), Hat(Product(c, s)), Pointwise(Hat(c), Hat(s)));
    SameTrans(Hat(z), Plus(Hat(y), Hat(Product(c, s))), Plus(Hat(y), Pointwise(Hat(c), Hat(s))));
  }

  /** A z = A y + c (A s1) on transforms. */
  lemma {:induction false} DotResponds(row: Vec, z: Vec, y: Vec, c: Poly, s1: Vec, n: nat)
    requires Responds(z, y, c, s1) && n <= |z| && n <= |row|
    ensures Same(Dot(row, z, n), Plus(Dot(row, y, n), Pointwise(Hat(c), Dot(row, s1, n))))
  {
    hide Hat, Product, Same;
    if n == 0 {
      ZeroRow(Hat(c));
    } else {
      var k := n - 1;
      var ch := Hat(c);
      DotResponds(row, z, y, c, s1, k);
      HatResponse(z[k], y[k], c, s1[k]);
      SameRefl(row[k]);
      SamePointwise(row[k], row[k], Hat(z[k]), Plus(Hat(y[k]), Pointwise(ch, Hat(s1[k]))));
      PointwiseLinear(row[k], ch, Hat(y[k]), Hat(s1[k]));
      var u, v, x := Dot(row, z, k), Dot(row, y, k), Dot(row, s1, k);
      var u', v', x' := Pointwise(row[k], Hat(z[k])), Pointwise(row[k], Hat(y[k])), Pointwise(row[k], Hat(s1[k]));
      SamePlus(u, Plus(v, Pointwise(ch, x)), u', Plus(v', Pointwise(ch, x')));
      Regroup(v, v', ch, x, x');
    }
  }

  lemma ZeroRow(ch: Poly)
    ensures Same(ZeroPoly(), Plus(ZeroPoly(), Pointwise(ch, ZeroPoly())))
  {
    assert Plus(ZeroPoly(), Pointwise(ch, ZeroPoly())) == ZeroPoly();
    SameRefl(ZeroPoly());
  }

  lemma Regroup(v: Poly, v': Poly, c: Poly, x: Poly, x': Poly)
    ensures Plus(Plus(v, Pointwise(c, x)), Plus(v', Pointwise(c, x'))) == Plus(Plus(v, v'), Pointwise(c, Plus(x, x')))
  {
    forall i | 0 <= i < 256
      ensures Plus(Plus(v, Pointwise(c, x)), Plus(v', Pointwise(c, x')))[i] ==
        Plus(Plus(v, v'), Pointwise(c, Plus(x, x')))[i]
    {
      NttTree.Distribute(c[i], x[i], x'[i]);
    }
  }

  lemma RowScalar(dz: int, dy: int, c: int, ds: int, t1: int, t0: int, s2: int)
    requires Cong(dz, dy + c * ds, Q) && Cong(t1 + t0, ds + s2, Q)
    ensures Cong((dz - c * t1) + c * s2, dy + c * t0, Q)
  {
    var k := CongElim(dz, dy + c * ds, Q);
    var l := CongElim(t1 + t0, ds + s2, Q);
    assert c * (t1 + t0) == c * (ds + s2) + (c * l) * Q by { assert c * (l * Q) == (c * l) * Q; }
    assert (dz - c * t1) + c * s2 - (dy + c * t0) == (k - c * l) * Q;
    CongIntro((dz - c * t1) + c * s2, dy + c * t0, Q, k - c * l);
  }

  lemma RowOnTransforms(dz: Poly, dy: Poly, ch: Poly, ds: Poly, t1h: Poly, t0h: Poly, s2h: Poly)
    requires Same(dz, Plus(dy, Pointwise(ch, ds))) && Same(Plus(t1h, t0h), Plus(ds, s2h))
    ensures Same(Plus(Minus(dz, Pointwise(ch, t1h)), Pointwise(ch, s2h)), Plus(dy, Pointwise(ch, t0h)))
  {
    hide Cong;
    forall i | 0 <= i < 256
      ensures Cong(Plus(Minus(dz, Pointwise(ch, t1h)), Pointwise(ch, s2h))[i], Plus(dy, Pointwise(ch, t0h))[i], Q)
    {
      RowScalar(dz[i], dy[i], ch[i], ds[i], t1h[i], t0h[i], s2h[i]);
    }
  }

  /** The key's row on transforms: t = A s1 + s2 and t = 2^13 t1 + t0. */
  lemma KeyRow(t: Poly, t1: Poly, t0: Poly, ds: Poly, s2: Poly)
    requires t == Canon(Plus(Canon(Unhat(ds)), s2)) && t == Plus(Lifted(t1), t0)
    ensures Same(Plus(Hat(Lifted(t1)), Hat(t0)), Plus(ds, Hat(s2)))
  {
    hide Hat, Unhat, Same, Canon, Plus;
    var a := Canon(Unhat(ds));
    HatPlus(Lifted(t1), t0);
    CanonSame(Plus(a, s2));
    HatSame(t, Plus(a, s2));
    HatPlus(a, s2);
    CanonSame(Unhat(ds));
    HatSame(a, Unhat(ds));
    HatUnhat(ds);
    SameTrans(Hat(a), Hat(Unhat(ds)), ds);
    SameRefl(Hat(s2));
    SamePlus(Hat(a), ds, Hat(s2), Hat(s2));
    SameTrans(Hat(t), Plus(Hat(a), Hat(s2)), Plus(ds, Hat(s2)));
  }

  /** Back from transforms: e + c s2 = w + c t0. */
  lemma RowBack(e: Poly, dy: Poly, c: Poly, s2: Poly, t0: Poly)
    requires Same(Plus(e, Pointwise(Hat(c), Hat(s2))), Plus(dy, Pointwise(Hat(c), Hat(t0))))
    ensures Same(Plus(Canon(Unhat(e)), Product(c, s2)), Plus(Canon(Unhat(dy)), Product(c, t0)))
  {
    hide Hat, Unhat, Same, Canon, Plus, Product, Pointwise;
    var p2, p0 := Pointwise(Hat(c), Hat(s2)), Pointwise(Hat(c), Hat(t0));
    UnhatSame(Plus(e, p2), Plus(dy, p0));
    UnhatPlus(e, p2);
    UnhatPlus(dy, p0);
    ProductByTransform(c, s2);
    ProductByTransform(c, t0);
    CanonSame(Unhat(e));
    CanonSame(Unhat(dy));
    SamePlus(Unhat(e), Canon(Unhat(e)), Unhat(p2), Product(c, s2));
    SamePlus(Unhat(dy), Canon(Unhat(dy)), Unhat(p0), Product(c, t0));
    SameSym(Plus(Unhat(e), Unhat(p2)), Plus(Canon(Unhat(e)), Product(c, s2)));
    SameTrans(Plus(Canon(Unhat(e)), Product(c, s2)), Plus(Unhat(e), Unhat(p2)), Plus(Unhat(dy), Unhat(p0)));
    SameTrans(Plus(Canon(Unhat(e)), Product(c, s2)), Plus(Unhat(dy), Unhat(p0)),
      Plus(Canon(Unhat(dy)), Product(c, t0)));
  }

  /** A z - c t1 2^13 + c s2 = w + c t0, one row. */
  lemma RowIdentity(row: Vec, z: Vec, y: Vec, c: Poly, s1: Vec, s2: Poly, t: Poly, t1: Poly, t0: Poly)
    requires Responds(z, y, c, s1) && |row| == |z|
    requires t == Canon(Plus(Canon(Unhat(Dot(row, s1, |s1|))), s2)) && t == Plus(Lifted(t1), t0)
    ensures Same(Plus(RecomputedRow(row, z, c, t1), Product(c, s2)),
      Plus(Canon(Unhat(Dot(row, y, |y|))), Product(c, t0)))
  {
    hide Hat, Unhat, Same, Canon, Plus, Product, Pointwise, Dot, Minus, Lifted;
    var n := |z|;
    DotResponds(row, z, y, c, s1, n);
    KeyRow(t, t1, t0, Dot(row, s1, n), s2);
    RowOnTransforms(Dot(row, z, n), Dot(row, y, n), Hat(c), Dot(row, s1, n), Hat(Lifted(t1)), Hat(t0), Hat(s2));
    RowBack(Minus(Dot(row, z, n), Pointwise(Hat(c), Hat(Lifted(t1)))), Dot(row, y, n), c, s2, t0);
  }

  // ------------------------------------------------------------ the hints

  /** rec = w - a + b is w1 steps plus the error r + u. */
  lemma ShiftedScalar(rec: int, w: int, a: int, b: int, den: Den)
    requires 0 <= rec < Q && 0 <= w < Q && Cong(rec + a, w + b, Q)
    ensures rec == Shifted(HighBits(w, den), Centred(LowBits(w, den) - a) + Centred(b), den)
  {
    hide Decompose, Centred, Cong;
    var w1, w0 := HighBits(w, den), LowBits(w, den);
    var v := Centred(w0 - a) + Centred(b);
    DecomposeParts(w, den);
    var g := w1 * 2 * Gamma2(den);
    CongAdd(Centred(w0 - a), w0 - a, Centred(b), b, Q);
    CongRefl(g, Q);
    CongAdd(g, g, v, w0 - a + b, Q);
    CongRefl(b - a, Q);
    CongAdd(w, g + w0, b - a, b - a, Q);
    CongRefl(a, Q);
    CongSub(rec + a, w + b, a, a, Q);
    assert w + (b - a) == (w + b) - a && g + w0 + (b - a) == g + (w0 - a + b) && rec + a - a == rec;
    CongTrans(rec, w + (b - a), g + (w0 - a + b), Q);
    CongSym(g + v, g + (w0 - a + b), Q);
    CongTrans(rec, g + (w0 - a + b), g + v, Q);
    CongCanon(rec, g + v, Q);
    assert g == 2 * Gamma2(den) * w1;
  }

  lemma HintScalar(rec: int, w: int, a: int, b: int, den: Den)
    requires 0 <= rec < Q && 0 <= w < Q && Cong(rec + a, w + b, Q)
    requires var v := Centred(LowBits(w, den) - a) + Centred(b);
      -2 * Gamma2(den) < v < 2 * Gamma2(den)
    ensures var v := Centred(LowBits(w, den) - a) + Centred(b);
      UseHint(rec, MakeHint(v, HighBits(w, den), den), den) == HighBits(w, den)
      && (MakeHint(v, HighBits(w, den), den) == 1 <==> HighBits(rec, den) != HighBits(w, den))
  {
    hide Decompose, UseHint, MakeHint, Centred, Cong;
    DecomposeParts(w, den);
    ShiftedScalar(rec, w, a, b, den);
    HintRecovers(HighBits(w, den), Centred(LowBits(w, den) - a) + Centred(b), den);
  }

  lemma HintRow(rec: Poly, w: Poly, a: Poly, b: Poly, den: Den, beta: nat)
    requires InRange(rec, 0, Q - 1) && InRange(w, 0, Q - 1) && Same(Plus(rec, a), Plus(w, b))
    requires InRange(CentredPoly(Minus(LowPoly(w, den), a)), 1 - (Gamma2(den) - beta), Gamma2(den) - beta - 1)
    requires InRange(CentredPoly(b), 1 - Gamma2(den), Gamma2(den) - 1)
    ensures var v := Plus(CentredPoly(Minus(LowPoly(w, den), a)), CentredPoly(b));
      UseHintPoly(rec, HintPoly(v, HighPoly(w, den), den), den) == HighPoly(w, den)
  {
    hide Decompose, UseHint, MakeHint, Centred, Cong, LowBits, HighBits;
    var r, u := CentredPoly(Minus(LowPoly(w, den), a)), CentredPoly(b);
    forall i | 0 <= i < 256
      ensures UseHint(rec[i], MakeHint(Plus(r, u)[i], HighBits(w[i], den), den), den) == HighBits(w[i], den)
    {
      assert Cong(Plus(rec, a)[i], Plus(w, b)[i], Q);
      assert r[i] == Centred(LowBits(w[i], den) - a[i]) && u[i] == Centred(b[i]);
      HintScalar(rec[i], w[i], a[i], b[i], den);
    }
  }

  /** The public t1 and the secret t0 together are t = A s1 + s2. */
  ghost predicate KeyFits(p: Params, k: SecretKey, A: Matrix, t1: Vec) {
    k.Shape(p) && MatrixShape(A, p) && |t1| == p.K()
    && forall i | 0 <= i < p.K() :: KeyRowFits(A[i], k.s1, k.s2[i], t1[i], k.t0[i])
  }

  ghost predicate KeyRowFits(row: Vec, s1: Vec, s2: Poly, t1: Poly, t0: Poly)
    requires |row| == |s1|
  {
    Canon(Plus(Canon(Unhat(Dot(row, s1, |s1|))), s2)) == Plus(Lifted(t1), t0)
  }

  lemma CentredSame(a: Poly)
    ensures Same(CentredPoly(a), a)
  {
    hide Cong;
    forall i | 0 <= i < 256 ensures Cong(CentredPoly(a)[i], a[i], Q) { assert Cong(Centred(a[i]), a[i], Q); }
  }

  lemma AttemptResponds(y: Vec, c: Poly, s1: Vec)
    requires |y| == |s1|
    ensures Responds(CentredVec(AddVec(y, MulVec(c, s1))), y, c, s1)
  {
    hide Product, Centred, Same, CentredPoly;
    var z := CentredVec(AddVec(y, MulVec(c, s1)));
    forall j | 0 <= j < |z| ensures Same(z[j], Plus(y[j], Product(c, s1[j]))) {
      CentredSame(Plus(y[j], Product(c, s1[j])));
    }
  }

  /** A row of an accepted candidate: its hint comes from small r and u. */
  ghost predicate RowAccepted(w: Poly, c: Poly, s2: Poly, t0: Poly, h: Poly, den: Den, beta: nat) {
    var r, u := CentredPoly(Minus(LowPoly(w, den), Product(c, s2))), CentredPoly(Product(c, t0));
    InRange(r, 1 - (Gamma2(den) - beta), Gamma2(den) - beta - 1) && InRange(u, 1 - Gamma2(den), Gamma2(den) - 1)
    && h == HintPoly(Plus(r, u), HighPoly(w, den), den) && IsFlags(h)
  }

  /** What the verifier recomputes, row by row, from an accepted candidate. */
  lemma RowRecovers(row: Vec, z: Vec, y: Vec, c: Poly, s1: Vec, s2: Poly, t1: Poly, t0: Poly, w: Poly, h: Poly,
      den: Den, beta: nat)
    requires Responds(z, y, c, s1) && |row| == |z| == |s1| == |y| && KeyRowFits(row, s1, s2, t1, t0)
    requires w == Canon(Unhat(Dot(row, y, |y|))) && RowAccepted(w, c, s2, t0, h, den, beta)
    ensures IsFlags(h) && UseHintPoly(RecomputedRow(row, z, c, t1), h, den) == HighPoly(w, den)
  {
    hide Responds, Product, Same, Unhat, Dot, CentredPoly, LowPoly, HighPoly, HintPoly, UseHintPoly, Lifted, Hat,
      Pointwise;
    RowIdentity(row, z, y, c, s1, s2, Plus(Lifted(t1), t0), t1, t0);
    HintRow(RecomputedRow(row, z, c, t1), w, Product(c, s2), Product(c, t0), den, beta);
  }

  lemma BoundedAt(v: Vec, bound: int, i: nat)
    requires Bounded(v, bound) && i < |v|
    ensures InRange(v[i], 1 - bound, bound - 1)
  {
  }

  lemma AttemptRows(p: Params, env: Env, k: SecretKey, mu: seq<byte>, y: Vec, w: Vec, t: Attempt, i: nat)
    requires k.Shape(p) && |y| == p.L() && |w| == p.K() && t == Respond(p, env, k, mu, y, w) && t.Accepted(p) &&
      i < p.K()
    ensures t.Shape(p) && t.w1[i] == HighPoly(w[i], p.GammaDen())
    ensures RowAccepted(w[i], env.ball(t.ctilde), k.s2[i], k.t0[i], t.h[i], p.GammaDen(), p.Beta())
  {
    hide Product, CentredPoly, LowPoly, HighPoly, HintPoly, InRange, PlainVec, Bounded, HintWeight, Gamma2, IsFlags;
    BoundedAt(t.r, Gamma2(p.GammaDen()) - p.Beta(), i);
    BoundedAt(t.u, Gamma2(p.GammaDen()), i);
  }

  /** The verifier's recomputed w1 is the signer's. */
  ghost predicate Recovers(p: Params, A: Matrix, t1: Vec, t: Attempt, c: Poly) {
    t.Shape(p) && MatrixShape(A, p) && |t1| == p.K() && UseHintVec(Recomputed(A, t.z, c, t1), t.h, p.GammaDen()) == t.w1
  }

  /** t is the accepted candidate of y under the key. */
  ghost predicate Candidate(p: Params, env: Env, k: SecretKey, A: Matrix, mu: seq<byte>, y: Vec, t: Attempt) {
    k.Shape(p) && MatrixShape(A, p) && |y| == p.L() && t == Respond(p, env, k, mu, y, Apply(A, y)) && t.Accepted(p)
  }

  lemma CandidateRow(p: Params, env: Env, k: SecretKey, A: Matrix, t1: Vec, mu: seq<byte>, y: Vec, t: Attempt, i: nat)
    requires KeyFits(p, k, A, t1) && Candidate(p, env, k, A, mu, y, t) && i < p.K()
    ensures |A[i]| == |t.z| && t.Shape(p)
    ensures UseHintPoly(RecomputedRow(A[i], t.z, env.ball(t.ctilde), t1[i]), t.h[i], p.GammaDen()) == t.w1[i]
  {
    hide Product, Unhat, Dot, CentredPoly, LowPoly, HighPoly, HintPoly, UseHintPoly, RecomputedRow, Canon, Responds,
      KeyRowFits, RowAccepted, InRange, PlainVec, Bounded, HintWeight, Gamma2;
    var w, c := Apply(A, y), env.ball(t.ctilde);
    AttemptResponds(y, c, k.s1);
    AttemptRows(p, env, k, mu, y, w, t, i);
    RowRecovers(A[i], t.z, y, c, k.s1, k.s2[i], t1[i], k.t0[i], w[i], t.h[i], p.GammaDen(), p.Beta());
  }

  lemma AttemptRecovers(p: Params, env: Env, k: SecretKey, A: Matrix, t1: Vec, mu: seq<byte>, y: Vec, t: Attempt)
    requires KeyFits(p, k, A, t1) && Candidate(p, env, k, A, mu, y, t)
    ensures Recovers(p, A, t1, t, env.ball(t.ctilde))
  {
    hide UseHintPoly, RecomputedRow, Respond, Apply, KeyRowFits, IsFlags, HintWeight, Bounded;
    CandidateRow(p, env, k, A, t1, mu, y, t, 0);
    forall i | 0 <= i < p.K()
      ensures UseHintPoly(RecomputedRow(A[i], t.z, env.ball(t.ctilde), t1[i]), t.h[i], p.GammaDen()) == t.w1[i]
    {
      CandidateRow(p, env, k, A, t1, mu, y, t, i);
    }
  }

  // ------------------------------------------------------------ encodings

  predicate VecRange(v: Vec, lo: int, hi: int) { forall i | 0 <= i < |v| :: InRange(v[i], lo, hi) }

  lemma LoadStoreRange(v: Vec, lo: int, hi: int, c: int, w: nat)
    requires VecRange(v, lo, hi) && c - Pow2(w) + 1 <= lo && hi <= c
    ensures LoadVec(StoreVec(v, c, w), |v|, c, w) == v
  {
    hide LoadVec, StoreVec, Pow2;
    LoadStoreVec(v, c, w);
  }

  /** Reading back a packed secret key. */
  lemma UnpackPackSk(p: Params, k: SecretKey)
    requires k.Shape(p) && VecRange(k.s1, -(p.Eta() as int), p.Eta()) && VecRange(k.s2, -(p.Eta() as int), p.Eta())
    requires VecRange(k.t0, -4095, 4096)
    ensures UnpackSk(p, PackSk(p, k)) == k
  {
    hide LoadVec, StoreVec, InRange;
    Pow2Values();
    LoadStoreRange(k.s1, -(p.Eta() as int), p.Eta(), p.Eta(), p.EtaBits());
    LoadStoreRange(k.s2, -(p.Eta() as int), p.Eta(), p.Eta(), p.EtaBits());
    LoadStoreRange(k.t0, -4095, 4096, 4096, 13);
    SkSections(k.rho, k.key, k.tr, StoreVec(k.s1, p.Eta(), p.EtaBits()), StoreVec(k.s2, p.Eta(), p.EtaBits()),
      StoreVec(k.t0, 4096, 13));
  }

  lemma SkSections(rho: seq<byte>, key: seq<byte>, tr: seq<byte>, x: seq<byte>, y: seq<byte>, t: seq<byte>)
    requires |rho| == 32 && |key| == 32 && |tr| == 64
    ensures var s := rho + key + tr + x + y + t;
      s[..32] == rho && s[32..64] == key && s[64..128] == tr && s[128..128 + |x|] == x
      && s[128 + |x|..128 + |x| + |y|] == y && s[128 + |x| + |y|..] == t
  {
  }

  lemma UnpackPackPk(p: Params, rho: seq<byte>, t1: Vec)
    requires |rho| == 32 && |t1| == p.K() && VecRange(t1, 0, 1023)
    ensures UnpackPk(p, PackPk(p, rho, t1)) == (rho, t1)
  {
    Pow2Values();
    hide PlainVec, ReadPlain;
    ReadPlainVec(t1, 10);
    var s := PackPk(p, rho, t1);
    assert s[..32] == rho && s[32..] == PlainVec(t1, 10);
  }

  /** A signature in range has one encoding, and reading it gives it back. */
  lemma SigDecodeEncode(p: Params, ct: seq<byte>, z: Vec, h: Vec)
    requires |ct| == p.CTilde() && |z| == p.L() && |h| == p.K() && IsHints(h) && HintWeight(h) <= p.Omega()
    requires VecRange(z, 1 - p.Gamma1(), p.Gamma1())
    ensures SigDecode(p, SigEncode(p, ct, z, h)) == Some(Signature(ct, z, h))
  {
    hide LoadVec, StoreVec, InRange, HintBytes, HintRead, IsHints, HintWeight;
    Pow2Values();
    LoadStoreRange(z, 1 - p.Gamma1(), p.Gamma1(), p.Gamma1(), p.ZBits());
    HintReadBytes(h, p.Omega());
    var a, b := StoreVec(z, p.Gamma1(), p.ZBits()), HintBytes(h, p.Omega());
    var s := SigEncode(p, ct, z, h);
    SigSections(s, ct, a, b);
  }

  lemma SigSections(s: seq<int>, ct: seq<int>, a: seq<int>, b: seq<int>)
    requires s == ct + a + b
    ensures s[..|ct|] == ct && s[|ct|..|ct| + |a|] == a && s[|ct| + |a|..] == b
  {
  }

  /** Every accepted byte string is the encoding of what it decodes to. */
  lemma SigEncodeDecode(p: Params, s: seq<byte>)
    requires |s| == p.SigBytes() && SigDecode(p, s).Some?
    ensures var g := SigDecode(p, s).value;
      HintWeight(g.h) <= p.Omega() && VecRange(g.z, 1 - p.Gamma1(), p.Gamma1()) && SigEncode(p, g.ctilde, g.z, g.h) == s
  {
    hide LoadVec, StoreVec, InRange, HintBytes, HintRead, HintWeight, IsHints;
    Pow2Values();
    var n := p.CTilde();
    var a := n + p.L() * p.ZBytes();
    HintBytesRead(s[a..], p.Omega());
    StoreLoadVec(s[n..a], p.L(), p.Gamma1(), p.ZBits());
    assert s == s[..n] + s[n..a] + s[a..];
  }

  // ------------------------------------------------------------ keys

  /** A generated key: t1 and t0 split t = A s1 + s2, everything in its field's range. */
  lemma KeySplits(t: Poly)
    requires InRange(t, 0, Q - 1)
    ensures t == Plus(Lifted(RoundHigh(t)), RoundLow(t))
    ensures InRange(RoundHigh(t), 0, 1023) && InRange(RoundLow(t), -4095, 4096)
  {
    forall i | 0 <= i < 256
      ensures t[i] == Plus(Lifted(RoundHigh(t)), RoundLow(t))[i]
      ensures 0 <= RoundHigh(t)[i] <= 1023 && -4095 <= RoundLow(t)[i] <= 4096
    {
      Power2RoundParts(t[i]);
    }
  }

  lemma GeneratedRow(A: Matrix, s1: Vec, s2: Vec, i: nat)
    requires (forall j | 0 <= j < |A| :: |A[j]| == |s1|) && |s2| == |A| && i < |A|
    ensures KeyRowFits(A[i], s1, s2[i], HighOf(KeyTarget(A, s1, s2))[i], LowOf(KeyTarget(A, s1, s2))[i])
    ensures InRange(HighOf(KeyTarget(A, s1, s2))[i], 0, 1023) && InRange(LowOf(KeyTarget(A, s1, s2))[i], -4095, 4096)
  {
    hide Unhat, Dot, Power2Round;
    KeySplits(KeyTarget(A, s1, s2)[i]);
  }

  /** The key a public key byte string belongs to. */
  ghost predicate PublicFits(p: Params, env: Env, k: SecretKey, pk: seq<byte>) {
    |pk| == p.PkBytes() && k.rho == UnpackPk(p, pk).0 && KeyFits(p, k, ExpandA(p, env, k.rho), UnpackPk(p, pk).1)
  }

  ghost predicate KeyInputs(p: Params, A: Matrix, k: SecretKey, t1: Vec) {
    MatrixShape(A, p) && k.Shape(p) && |t1| == p.K()
    && VecRange(k.s1, -(p.Eta() as int), p.Eta()) && VecRange(k.s2, -(p.Eta() as int), p.Eta())
    && t1 == HighOf(KeyTarget(A, k.s1, k.s2)) && k.t0 == LowOf(KeyTarget(A, k.s1, k.s2))
  }

  ghost predicate KeyReadsBack(p: Params, A: Matrix, k: SecretKey, t1: Vec) {
    KeyFits(p, k, A, t1) && UnpackSk(p, PackSk(p, k)) == k && UnpackPk(p, PackPk(p, k.rho, t1)) == (k.rho, t1)
  }

  lemma GeneratedKey(p: Params, A: Matrix, k: SecretKey, t1: Vec)
    requires KeyInputs(p, A, k, t1)
    ensures KeyReadsBack(p, A, k, t1)
  {
    hide UnpackSk, UnpackPk, PackSk, PackPk, KeyTarget, HighOf, LowOf, KeyRowFits, InRange;
    forall i | 0 <= i < p.K()
      ensures KeyRowFits(A[i], k.s1, k.s2[i], t1[i], k.t0[i]) && InRange(t1[i], 0, 1023) &&
        InRange(k.t0[i], -4095, 4096)
    {
      GeneratedRow(A, k.s1, k.s2, i);
    }
    UnpackPackPk(p, k.rho, t1);
    UnpackPackSk(p, k);
  }

  lemma SmallRange(p: Params, env: Env, seed: seq<byte>, from: nat, n: nat)
    requires env.Valid(p)
    ensures VecRange(ExpandSmall(env, seed, from, n), -(p.Eta() as int), p.Eta())
  {
    hide InRange;
  }

  lemma MakeKeyInputs(p: Params, env: Env, rho: seq<byte>, rhop: seq<byte>, key: seq<byte>)
    requires env.Valid(p) && |rho| == 32 && |key| == 32
    ensures var (k, t1) := MakeKey(p, env, rho, rhop, key);
      KeyInputs(p, ExpandA(p, env, rho), k, t1)
  {
    hide PackPk, KeyTarget, HighOf, LowOf, ExpandA, MatrixShape, VecRange, ExpandSmall;
    SmallRange(p, env, rhop, 0, p.L());
    SmallRange(p, env, rhop, p.L(), p.K());
    ExpandedRows(p, ExpandA(p, env, rho));
  }

  /** Key generation makes keys that fit and whose encodings read back. */
  lemma KeyGenFits(p: Params, env: Env, seed: seq<byte>)
    requires env.Valid(p) && |seed| == 32
    ensures var (pk, sk) := KeyGen(p, env, seed);
      PublicFits(p, env, UnpackSk(p, sk), pk)
  {
    hide UnpackSk, UnpackPk, PackSk, PackPk, KeyFits, MakeKey, KeyInputs, ExpandA;
    var e := KeccakSponge.Shake256(seed + [p.K() as byte, p.L() as byte], 128);
    MakeKeyInputs(p, env, e[..32], e[32..96], e[96..]);
    var (k, t1) := MakeKey(p, env, e[..32], e[32..96], e[96..]);
    GeneratedKey(p, ExpandA(p, env, e[..32]), k, t1);
  }

  lemma ExpandedRows(p: Params, A: Matrix)
    requires MatrixShape(A, p)
    ensures |A| == p.K() && forall i | 0 <= i < |A| :: |A[i]| == p.L()
  {
  }

  // ------------------------------------------------------------ the theorem

  /** A successful loop ends at an accepted candidate. */
  lemma {:induction false} LoopAccepts(p: Params, env: Env, k: SecretKey, A: Matrix, mu: seq<byte>, seed: seq<byte>,
      attempt: nat, buf: seq<byte>) returns (a: nat)
    requires k.Shape(p) && MatrixShape(A, p) && attempt <= ATTEMPTS && |buf| == p.SigBytes()
    requires SignLoop(p, env, k, A, mu, seed, attempt, buf).0 == 0
    ensures a < ATTEMPTS
    ensures var t := TryOnce(p, env, k, A, mu, seed, a);
      t.Accepted(p) && SignLoop(p, env, k, A, mu, seed, attempt, buf).1 == SigEncode(p, t.ctilde, t.z, t.h)
    decreases ATTEMPTS - attempt
  {
    hide TryOnce, SigEncode, Scratch, MatrixShape;
    var t := TryOnce(p, env, k, A, mu, seed, attempt);
    if t.Accepted(p) {
      a := attempt;
    } else {
      a := LoopAccepts(p, env, k, A, mu, seed, attempt + 1, Scratch(p, buf, t));
    }
  }

  ghost predicate Verifies(p: Params, env: Env, t: Attempt, mu: seq<byte>, pk: seq<byte>) {
    t.Shape(p) && HintWeight(t.h) <= p.Omega() && |pk| == p.PkBytes()
    && VerifyMu(p, env, SigEncode(p, t.ctilde, t.z, t.h), mu, pk) == 0
  }

  /** The encoding of an accepted candidate verifies. */
  lemma CandidateVerifies(p: Params, env: Env, k: SecretKey, mu: seq<byte>, y: Vec, t: Attempt, pk: seq<byte>)
    requires PublicFits(p, env, k, pk) && Candidate(p, env, k, ExpandA(p, env, k.rho), mu, y, t)
    ensures Verifies(p, env, t, mu, pk)
  {
    hide UnpackPk, SigEncode, SigDecode, Apply, ExpandA, Recomputed, UseHintVec, KeyFits, MatrixShape, HintWeight,
      PlainVec, HighVec, HintVec, CentredVec, MulVec, Bounded, VecRange;
    var A, t1 := ExpandA(p, env, k.rho), UnpackPk(p, pk).1;
    AttemptRecovers(p, env, k, A, t1, mu, y, t);
    ZInRange(p, t.z);
    SigDecodeEncode(p, t.ctilde, t.z, t.h);
  }

  lemma ZInRange(p: Params, z: Vec)
    requires Bounded(z, p.Gamma1() - p.Beta())
    ensures VecRange(z, 1 - p.Gamma1(), p.Gamma1())
  {
    forall i | 0 <= i < |z| ensures InRange(z[i], 1 - p.Gamma1(), p.Gamma1()) {
      assert InRange(z[i], 1 - (p.Gamma1() - p.Beta()), p.Gamma1() - p.Beta() - 1);
    }
  }

  /** For every seed, mu and rnd: a signature made under a generated key verifies under its
      public key. */
  lemma SignVerifies(p: Params, env: Env, seed: seq<byte>, mu: seq<byte>, rnd: seq<byte>, buf: seq<byte>)
    requires env.Valid(p) && |seed| == 32 && |buf| == p.SigBytes()
    ensures var (pk, sk) := KeyGen(p, env, seed);
      var (rc, sig) := SignMu(p, env, mu, rnd, sk, buf);
      rc == 0 ==> VerifyMu(p, env, sig, mu, pk) == 0
  {
    hide KeyGen, UnpackSk, VerifyMu, SignLoop, TryOnce, ExpandA, SigEncode, PublicFits, Bounded, Candidate, HintWeight;
    var (pk, sk) := KeyGen(p, env, seed);
    KeyGenFits(p, env, seed);
    var k := UnpackSk(p, sk);
    if SignMu(p, env, mu, rnd, sk, buf).0 == 0 {
      var A, s := ExpandA(p, env, k.rho), KeccakSponge.Shake256(k.key + rnd + mu, 64);
      var a := LoopAccepts(p, env, k, A, mu, s, 0, buf);
      var t := TryOnce(p, env, k, A, mu, s, a);
      TryIsCandidate(p, env, k, A, mu, s, a);
      CandidateVerifies(p, env, k, mu, MaskVec(p, s, a), t, pk);
    }
  }

  lemma TryIsCandidate(p: Params, env: Env, k: SecretKey, A: Matrix, mu: seq<byte>, s: seq<byte>, a: nat)
    requires k.Shape(p) && MatrixShape(A, p) && a < ATTEMPTS && TryOnce(p, env, k, A, mu, s, a).Accepted(p)
    ensures Candidate(p, env, k, A, mu, MaskVec(p, s, a), TryOnce(p, env, k, A, mu, s, a))
  {
    hide Respond, Apply, MaskVec, Bounded;
  }
}
