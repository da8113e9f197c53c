/** Key generation and verification as the code runs them, proved to be KeyGen and VerifyMu. */
module MlDsaKeysVerify {
  import opened Options
  import opened ModArith
  import opened MlDsaModulus
  import opened Bits
  import opened Radix
  import opened NttTree
  import opened NegacyclicRing
  import opened NttLoop
  import opened MlDsaArith
  import opened MlDsaNtt
  import opened MlDsaRing
  import opened MlDsaParams
  import opened MlDsaRounding
  import opened MlDsaPacking
  import opened MlDsaHints
  import opened MlDsaScheme
  import opened MlDsaVectors
  import opened MlDsaCodec
  import opened MlDsaSign
  import opened MlDsaCorrect
  import KeccakSponge

  // ------------------------------------------------------------ key generation

  method SampleSmall(p: Params, env: Env, seed: seq<byte>, from: nat, n: nat) returns (v: Vec)
    requires env.Valid(p)
    ensures v == ExpandSmall(env, seed, from, n) && VecRange(v, -(p.Eta() as int), p.Eta()) && VecWithin(v, p.Eta())
  {
    v := [];
    for i := 0 to n
      invariant |v| == i && forall k | 0 <= k < i :: v[k] == env.bounded(seed, from + k)
    {
      v := v + [env.bounded(seed, from + i)];
    }
    forall k | 0 <= k < n ensures Within(v[k], p.Eta()) { assert InRange(v[k], -(p.Eta() as int), p.Eta()); }
  }

  lemma TargetRow(x: Poly, u: Poly, s2: Poly)
    requires Same(x, u)
    ensures Canon(Plus(x, s2)) == Canon(Plus(Canon(u), s2))
  {
    hide Same, Canon, Plus;
    CanonSame(u);
    SameTrans(x, u, Canon(u));
    SameRefl(s2);
    SamePlus(x, Canon(u), s2, s2);
    CanonUnique(Plus(x, s2), Plus(Canon(u), s2));
  }

  /** t = A s1 + s2. */
  method Target(A: Matrix, s1: Vec, s2: Vec, z: seq<int>) returns (t: Vec)
    requires 0 < |s1| <= 8 && |s2| == |A| && VecWithin(s1, 4) && VecWithin(s2, 4) && ZetaTable(z)
    requires forall i | 0 <= i < |A| :: |A[i]| == |s1| && VecWithin(A[i], Q)
    ensures t == KeyTarget(A, s1, s2)
  {
    hide Same, Within, Unhat, Dot, ZetaTable, Canon, VecWithin;
    VecWider(s1, 4, Q);
    var x := Product32(A, s1, z);
    var y := VecAdd(x, s2, INVERTED, 4);
    VecWider(y, INVERTED + 4, Q - 1);
    t := VecCaddq(y);
    forall i | 0 <= i < |t| ensures t[i] == KeyTarget(A, s1, s2)[i] {
      TargetRow(x[i], Unhat(Dot(A[i], s1, |s1|)), s2[i]);
    }
  }

  method VecPower2Round(t: Vec) returns (t1: Vec, t0: Vec)
    ensures t1 == HighOf(t) && t0 == LowOf(t)
  {
    hide Power2Round;
    t1, t0 := [], [];
    for i := 0 to |t|
      invariant |t1| == |t0| == i
      invariant forall k | 0 <= k < i :: t1[k] == RoundHigh(t[k]) && t0[k] == RoundLow(t[k])
    {
      var a: seq<int>, b: seq<int> := [], [];
      for j := 0 to 256
        invariant |a| == |b| == j
        invariant forall k | 0 <= k < j :: a[k] == Power2Round(t[i][k]).0 && b[k] == Power2Round(t[i][k]).1
      {
        a, b := a + [Power2Round(t[i][j]).0], b + [Power2Round(t[i][j]).1];
      }
      assert a == RoundHigh(t[i]) && b == RoundLow(t[i]);
      t1, t0 := t1 + [a], t0 + [b];
    }
  }

  lemma TargetRanges(A: Matrix, s1: Vec, s2: Vec)
    requires (forall i | 0 <= i < |A| :: |A[i]| == |s1|) && |s2| == |A|
    ensures var t := KeyTarget(A, s1, s2);
      VecRange(HighOf(t), 0, 1023) && VecRange(LowOf(t), -4095, 4096)
      && forall i | 0 <= i < |t| :: Digits(HighOf(t)[i], 1024)
  {
    hide KeyRowFits, Unhat, Dot, Power2Round;
    var t := KeyTarget(A, s1, s2);
    forall i | 0 <= i < |t|
      ensures InRange(HighOf(t)[i], 0, 1023) && InRange(LowOf(t)[i], -4095, 4096) && Digits(HighOf(t)[i], 1024)
    {
      GeneratedRow(A, s1, s2, i);
    }
  }

  method PackSecret(p: Params, k: SecretKey) returns (s: seq<byte>)
    requires k.Shape(p) && VecRange(k.s1, -(p.Eta() as int), p.Eta()) && VecRange(k.s2, -(p.Eta() as int), p.Eta())
    requires VecRange(k.t0, -4095, 4096)
    ensures s == PackSk(p, k)
  {
    hide StoreVec, InRange;
    var a := StoreEtaVec(p, k.s1);
    var b := StoreEtaVec(p, k.s2);
    var c := StoreT0Vec(k.t0);
    s := k.rho + k.key + k.tr + a + b + c;
  }

  /** The two keys from the expanded seed. */
  method MakeKeyPair(p: Params, env: Env, rho: seq<byte>, rhop: seq<byte>, key: seq<byte>)
    returns (pk: seq<byte>, sk: seq<byte>)
    requires env.Valid(p) && |rho| == 32 && |key| == 32
    ensures var (k, t1) := MakeKey(p, env, rho, rhop, key);
      pk == PackPk(p, rho, t1) && sk == PackSk(p, k)
  {
    hide KeyTarget, HighOf, LowOf, ExpandA, VecRange, ExpandSmall, VecWithin, ZetaTable, Digits, PlainVec, Env.Valid,
      PackSk, KeccakSponge.Shake256;
    var z := BuildZetas();
    var A := MatrixExpand(p, env, rho);
    MatrixRange(p, env, rho);
    var s1 := SampleSmall(p, env, rhop, 0, p.L());
    var s2 := SampleSmall(p, env, rhop, p.L(), p.K());
    VecWider(s1, p.Eta(), 4);
    VecWider(s2, p.Eta(), 4);
    var t := Target(A, s1, s2, z);
    var t1, t0 := VecPower2Round(t);
    TargetRanges(A, s1, s2);
    var b := StoreT1Vec(t1);
    pk := rho + b;
    var tr := HashTwo(pk, [], 64);
    assert pk + [] == pk;
    sk := PackSecret(p, SecretKey(rho, key, tr, s1, s2, t0));
  }

  method KeyPairFromSeed(p: Params, env: Env, seed: seq<byte>) returns (pk: seq<byte>, sk: seq<byte>)
    requires env.Valid(p) && |seed| == 32
    ensures (pk, sk) == KeyGen(p, env, seed)
  {
    hide MakeKey, PackPk, PackSk, KeccakSponge.Shake256;
    var e := HashTwo(seed, [p.K() as byte, p.L() as byte], 128);
    pk, sk := MakeKeyPair(p, env, e[..32], e[32..96], e[96..]);
  }

  // ------------------------------------------------------------ verification

  lemma LiftedRange(t1: Poly)
    requires Digits(t1, 1024)
    ensures Within(Lifted(t1), Q)
  {
  }

  /** t1 << 13. */
  method VecShift(t1: Vec) returns (r: Vec)
    requires forall i | 0 <= i < |t1| :: Digits(t1[i], 1024)
    ensures |r| == |t1| && VecWithin(r, Q) && forall i | 0 <= i < |r| :: r[i] == Lifted(t1[i])
  {
    hide Within, Digits;
    r := [];
    for i := 0 to |t1|
      invariant |r| == i && forall k | 0 <= k < i :: r[k] == Lifted(t1[k]) && Within(r[k], Q)
    {
      var s: seq<int> := [];
      for j := 0 to 256
        invariant |s| == j && forall k | 0 <= k < j :: s[k] == 8192 * t1[i][k]
      {
        s := s + [t1[i][j] * 8192];
      }
      assert s == Lifted(t1[i]);
      LiftedRange(t1[i]);
      r := r + [s];
    }
  }

  lemma DifferenceForm(t: Poly, q: Poly, d: Poly, e: Poly)
    requires Same(t, Scale(RINV, d)) && Same(q, Scale(RINV, e))
    ensures Same(Minus(t, q), Scale(RINV, Minus(d, e)))
  {
    SameMinus(t, Scale(RINV, d), q, Scale(RINV, e));
    hide Same;
    forall i | 0 <= i < 256 ensures Minus(Scale(RINV, d), Scale(RINV, e))[i] == Scale(RINV, Minus(d, e))[i] {
      NttTree.Distribute(RINV, d[i], e[i]);
    }
    assert Minus(Scale(RINV, d), Scale(RINV, e)) == Scale(RINV, Minus(d, e));
  }

  /** One row back from the transform domain, made canonical. */
  lemma RecomputedFrom(t: Poly, q: Poly, u: Poly, x: Poly, ch: Poly, th: Poly, row: Vec, z: Vec, c: Poly, t1: Poly)
    requires |row| == |z| && Same(t, Scale(RINV, Dot(row, z, |z|)))
    requires Same(ch, Hat(c)) && Same(th, Hat(Lifted(t1))) && Same(q, Scale(RINV, Pointwise(ch, th)))
    requires Same(u, Minus(t, q)) && Same(x, Scale(R, Unhat(u)))
    ensures Canon(x) == RecomputedRow(row, z, c, t1)
  {
    hide Same, Hat, Unhat, Dot, Pointwise, Scale, Minus, Canon, Lifted;
    var e := Pointwise(Hat(c), Hat(Lifted(t1)));
    SamePointwise(ch, Hat(c), th, Hat(Lifted(t1)));
    SameScale(RINV, Pointwise(ch, th), e);
    SameTrans(q, Scale(RINV, Pointwise(ch, th)), Scale(RINV, e));
    DifferenceForm(t, q, Dot(row, z, |z|), e);
    SameTrans(u, Minus(t, q), Scale(RINV, Minus(Dot(row, z, |z|), e)));
    MontgomeryCancels(u, Minus(Dot(row, z, |z|), e), x);
    CanonUnique(x, Unhat(Minus(Dot(row, z, |z|), e)));
  }

  method TimesTransformed(ch: Poly, th: Vec) returns (q: Vec)
    requires Within(ch, 8 * Q) && VecWithin(th, 8 * Q)
    ensures |q| == |th| && VecWithin(q, Q) && forall i | 0 <= i < |q| :: Same(q[i], Scale(RINV, Pointwise(ch, th[i])))
  {
    hide Same, Within, Scale, Pointwise;
    q := [];
    for i := 0 to |th|
      invariant |q| == i
      invariant forall k | 0 <= k < i :: Same(q[k], Scale(RINV, Pointwise(ch, th[k]))) && Within(q[k], Q)
    {
      var x := PolyPointwise(ch, th[i]);
      q := q + [x];
    }
  }

  /** A z - c t1 2^13 by transforms. */
  method Recompute(A: Matrix, zv: Vec, c: Poly, t1: Vec, z: seq<int>) returns (w: Vec)
    requires 0 < |zv| <= 8 && |t1| == |A| && VecWithin(zv, Q) && Within(c, Q) && ZetaTable(z)
    requires forall i | 0 <= i < |A| :: |A[i]| == |zv| && VecWithin(A[i], Q)
    requires forall i | 0 <= i < |t1| :: Digits(t1[i], 1024)
    ensures w == Recomputed(A, zv, c, t1)
  {
    hide Same, Within, Scale, Pointwise, Hat, Unhat, Dot, ZetaTable, Canon, VecWithin, Lifted, Digits, RecomputedRow;
    var v := VecNtt(zv, z);
    TransformedLength(v, zv);
    var t := MatrixPointwise(A, v, zv);
    var ch := PolyNtt(c, z);
    var s := VecShift(t1);
    var th := VecNtt(s, z);
    VecOf(th, 8 * Q);
    var q := TimesTransformed(ch, th);
    VecOf(t, 8 * Q);
    var d := VecSub(t, q, 8 * Q, Q);
    VecWider(d, 9 * Q, 100 * Q);
    var u := VecReduce(d);
    VecWider(u, REDUCED, Q);
    var x := VecInvNtt(u, z);
    VecWider(x, INVERTED, Q - 1);
    w := VecCaddq(x);
    forall i | 0 <= i < |w| ensures w[i] == Recomputed(A, zv, c, t1)[i] {
      RecomputedFrom(t[i], q[i], u[i], x[i], ch, th[i], A[i], zv, c, t1[i]);
    }
  }

  lemma VecOf(v: Vec, b: int)
    requires forall i | 0 <= i < |v| :: Within(v[i], b)
    ensures VecWithin(v, b)
  {
  }

  method VecUseHint(w: Vec, h: Vec, den: Den) returns (w1: Vec)
    requires |w| == |h| && IsHints(h)
    ensures w1 == UseHintVec(w, h, den)
  {
    hide UseHint;
    w1 := [];
    for i := 0 to |w|
      invariant |w1| == i && forall k | 0 <= k < i :: w1[k] == UseHintPoly(w[k], h[k], den)
    {
      var s: seq<int> := [];
      for j := 0 to 256
        invariant |s| == j && forall k | 0 <= k < j :: s[k] == UseHint(w[i][k], h[i][k], den)
      {
        s := s + [UseHint(w[i][j], h[i][j], den)];
      }
      assert s == UseHintPoly(w[i], h[i], den);
      w1 := w1 + [s];
    }
  }

  lemma UseHintScalar(a: int, hint: nat, den: Den)
    requires 0 <= a < Q
    ensures 0 <= UseHint(a, hint, den) < Steps(den)
  {
    DecomposeParts(a, den);
    hide Decompose;
    if den == 88 { } else { }
  }

  lemma UseHintRange(w: Vec, h: Vec, den: Den)
    requires |w| == |h| && IsHints(h) && VecRange(w, 0, Q - 1)
    ensures forall i | 0 <= i < |w| :: InRange(UseHintVec(w, h, den)[i], 0, Steps(den) - 1)
  {
    hide UseHint;
    forall i, j | 0 <= i < |w| && 0 <= j < 256
      ensures 0 <= UseHintVec(w, h, den)[i][j] <= Steps(den) - 1
    {
      assert InRange(w[i], 0, Q - 1);
      UseHintScalar(w[i][j], h[i][j], den);
    }
  }

  lemma RecomputedRange(A: Matrix, z: Vec, c: Poly, t1: Vec)
    requires (forall i | 0 <= i < |A| :: |A[i]| == |z|) && |t1| == |A|
    ensures VecRange(Recomputed(A, z, c, t1), 0, Q - 1)
  {
    hide Unhat, Dot, Hat;
  }

  lemma ReadPlainRange(s: seq<byte>, n: nat)
    requires |s| == n * 320
    ensures forall i | 0 <= i < n :: Digits(ReadPlain(s, n, 10)[i], 1024)
    decreases n
  {
    Pow2Values();
    if n > 0 {
      FirstFits(n, 320);
      ReadPlainRange(s[320..], n - 1);
    }
  }

  lemma LoadedZ(p: Params, s: seq<byte>)
    requires |s| == p.SigBytes() && SigDecode(p, s).Some?
    ensures VecWithin(SigDecode(p, s).value.z, Q)
  {
    hide LoadVec, HintRead;
    Pow2Values();
    LoadRange(s[p.CTilde()..p.CTilde() + p.L() * p.ZBytes()], p.L(), p.Gamma1(), p.ZBits());
  }

  /** diff |= c[i] ^ c2[i]: zero exactly when the two strings agree. */
  method SameBytes(a: seq<byte>, b: seq<byte>) returns (same: bool)
    requires |a| == |b|
    ensures same <==> a == b
  {
    same := true;
    for i := 0 to |a|
      invariant same <==> a[..i] == b[..i]
    {
      assert a[..i + 1] == a[..i] + [a[i]] && b[..i + 1] == b[..i] + [b[i]];
      same := same && a[i] == b[i];
    }
    assert a[..|a|] == a && b[..|a|] == b;
  }

  /** ML-DSA.Verify_internal below mu, as the code runs it. */
  method VerifyMessage(p: Params, env: Env, sig: seq<byte>, mu: seq<byte>, pk: seq<byte>) returns (rc: int)
    requires env.Valid(p) && |sig| == p.SigBytes() && |pk| == p.PkBytes()
    ensures rc == VerifyMu(p, env, sig, mu, pk)
  {
    hide ReadPlain, SigDecode, ExpandA, Recomputed, UseHintVec, PlainVec, Env.Valid, Bounded, VecWithin, ZetaTable,
      KeccakSponge.Shake256, Within, Digits, InRange, VecRange, IsHints;
    var t1 := LoadT1Vec(pk[32..], p.K());
    ReadPlainRange(pk[32..], p.K());
    var s := ReadSig(p, sig);
    if s.None? { return -1; }
    LoadedZ(p, sig);
    var bad := VecChkNorm(s.value.z, p.Gamma1() - p.Beta());
    if bad { return -1; }
    var c := env.ball(s.value.ctilde);
    ChallengeReady(p, env, s.value.ctilde);
    var A := MatrixExpand(p, env, pk[..32]);
    MatrixRange(p, env, pk[..32]);
    var table := BuildZetas();
    var w := Recompute(A, s.value.z, c, t1, table);
    var w1 := VecUseHint(w, s.value.h, p.GammaDen());
    RecomputedRange(A, s.value.z, c, t1);
    UseHintRange(w, s.value.h, p.GammaDen());
    var buf := StoreW1Vec(p, w1);
    var c2 := HashTwo(mu, buf, p.CTilde());
    var same := SameBytes(s.value.ctilde, c2);
    rc := if same then 0 else -1;
  }
}
