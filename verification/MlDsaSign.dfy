/** The plain signer: the rejection loop over in-place transforms, proved to be SignMu. */
module MlDsaSign {
  import opened ModArith
  import opened MlDsaModulus
  import opened Bits
  import opened NttTree
  import opened NegacyclicRing
  import opened NttLoop
  import opened MlDsaArith
  import opened MlDsaNtt
  import opened MlDsaRing
  import opened MlDsaParams
  import opened MlDsaRounding
  import opened MlDsaPacking
  import opened MlDsaHints
  import opened MlDsaScheme
  import opened MlDsaVectors
  import opened MlDsaCodec
  import KeccakSponge

  // ------------------------------------------------------------ rounding loops

  method VecDecompose(w: Vec, den: Den) returns (w1: Vec, w0: Vec)
    ensures w1 == HighVec(w, den) && w0 == LowVec(w, den)
  {
    hide Decompose;
    w1, w0 := [], [];
    for i := 0 to |w|
      invariant |w1| == |w0| == i
      invariant forall k | 0 <= k < i :: w1[k] == HighPoly(w[k], den) && w0[k] == LowPoly(w[k], den)
    {
      var a, b := PolyDecompose(w[i], den);
      w1, w0 := w1 + [a], w0 + [b];
    }
  }

  method PolyDecompose(a: Poly, den: Den) returns (a1: Poly, a0: Poly)
    ensures a1 == HighPoly(a, den) && a0 == LowPoly(a, den)
  {
    hide Decompose;
    var s: seq<int>, t: seq<int> := [], [];
    for j := 0 to 256
      invariant |s| == |t| == j
      invariant forall k | 0 <= k < j :: s[k] == HighBits(a[k], den) && t[k] == LowBits(a[k], den)
    {
      s, t := s + [Decompose(a[j], den).0], t + [Decompose(a[j], den).1];
    }
    a1, a0 := s, t;
  }

  lemma {:induction false} FlatTail(ps: seq<seq<int>>, i: nat)
    requires i < |ps|
    ensures |Flat(ps[i..])| == |ps[i]| + |Flat(ps[i + 1..])|
  {
    assert ps[i..][1..] == ps[i + 1..];
  }

  /** The hints and how many are set. */
  method VecMakeHint(w0: Vec, w1: Vec, den: Den) returns (h: Vec, n: nat)
    requires |w0| == |w1|
    ensures h == HintVec(w0, w1, den) && n == HintWeight(h)
  {
    hide Flat, Positions, MakeHint;
    h, n := [], 0;
    ghost var H := HintVec(w0, w1, den);
    assert Lists(H)[0..] == Lists(H);
    for i := 0 to |w0|
      invariant |h| == i && h == H[..i] && n + |Flat(Lists(H)[i..])| == HintWeight(H)
    {
      var p, m := PolyMakeHint(w0[i], w1[i], den);
      FlatTail(Lists(H), i);
      h, n := h + [p], n + m;
    }
    EmptyFlat(Lists(H));
  }

  lemma EmptyFlat(ps: seq<seq<int>>)
    ensures Flat(ps[|ps|..]) == []
  {
  }

  method PolyMakeHint(a0: Poly, a1: Poly, den: Den) returns (h: Poly, n: nat)
    ensures h == HintPoly(a0, a1, den) && n == |Positions(h, 256)|
  {
    hide MakeHint;
    ghost var H := HintPoly(a0, a1, den);
    var s: seq<int> := [];
    n := 0;
    for j := 0 to 256
      invariant |s| == j && s == H[..j] && n == |Positions(H, j)|
    {
      PositionsStep(H, j);
      s := s + [MakeHint(a0[j], a1[j], den)];
      n := n + s[j];
    }
    h := s;
  }

  method PolyMask(p: Params, seed: seq<byte>, nonce: nat) returns (y: Poly)
    requires nonce < 65536
    ensures y == MaskPoly(p, seed, nonce) && Within(y, p.Gamma1())
  {
    hide LoadPoly, KeccakSponge.Shake256;
    var b := HashTwo(seed, NonceBytes(nonce), p.ZBytes());
    y := PolyZUnpack(p, b);
    MaskRange(p, b);
  }

  /** y from the seed and the attempt's nonces. */
  method ExpandMask(p: Params, seed: seq<byte>, attempt: nat) returns (y: Vec)
    requires attempt < ATTEMPTS
    ensures y == MaskVec(p, seed, attempt) && VecWithin(y, p.Gamma1())
  {
    hide MaskPoly, Within;
    y := [];
    for i := 0 to p.L()
      invariant |y| == i && forall k | 0 <= k < i :: y[k] == MaskPoly(p, seed, p.L() * attempt + k) &&
                              Within(y[k], p.Gamma1())
    {
      var t := PolyMask(p, seed, p.L() * attempt + i);
      y := y + [t];
    }
  }

  lemma MaskRange(p: Params, b: seq<byte>)
    requires |b| == p.ZBytes()
    ensures Within(LoadPoly(b, p.Gamma1(), p.ZBits()), p.Gamma1())
  {
    hide LoadPoly;
    Pow2Values();
    StoreLoad(b, p.Gamma1(), p.ZBits());
  }

  // ------------------------------------------------------------ the three tested values

  lemma SameCommute(a: Poly, b: Poly, c: Poly)
    requires Same(a, b)
    ensures Same(Plus(a, c), Plus(c, b))
  {
    hide Cong;
    forall i | 0 <= i < 256 ensures Cong(Plus(a, c)[i], Plus(c, b)[i], Q) {
      CongRefl(c[i], Q);
      CongAdd(a[i], b[i], c[i], c[i], Q);
    }
  }

  lemma ResponseSame(x: Vec, r: Vec, cs: Vec, y: Vec)
    requires VecSame(x, cs) && |y| == |x| && VecSame(r, AddVec(x, y))
    ensures VecSame(r, AddVec(y, cs))
  {
    hide Same;
    forall i | 0 <= i < |r| ensures Same(r[i], AddVec(y, cs)[i]) {
      SameCommute(x[i], cs[i], y[i]);
      SameTrans(r[i], Plus(x[i], y[i]), Plus(y[i], cs[i]));
    }
  }

  /** z = y + c s1 and its test. */
  method TestZ(p: Params, ch: Poly, s1h: Vec, y: Vec, z: seq<int>, ghost c: Poly, ghost s1: Vec)
    returns (zz: Vec, ok: bool)
    requires Same(ch, Hat(c)) && Within(ch, 8 * Q) && Transformed(s1h, s1) && ZetaTable(z) && |y| == |s1|
    requires VecWithin(y, p.Gamma1())
    ensures ok <==> Bounded(CentredVec(AddVec(y, MulVec(c, s1))), p.Gamma1() - p.Beta())
    ensures ok ==> zz == CentredVec(AddVec(y, MulVec(c, s1)))
  {
    hide Same, Within, Hat, Transformed, ZetaTable, MulVec, Bounded, CentredPoly, VecWithin;
    var x := TimesChallenge(ch, s1h, c, s1, z);
    var a := VecAdd(x, y, INVERTED, p.Gamma1());
    VecWider(a, INVERTED + p.Gamma1(), 100 * Q);
    zz := VecReduce(a);
    ResponseSame(x, zz, MulVec(c, s1), y);
    NormLift(zz, AddVec(y, MulVec(c, s1)), p.Gamma1() - p.Beta());
    VecWider(zz, REDUCED, Q);
    var bad := VecChkNorm(zz, p.Gamma1() - p.Beta());
    ok := !bad;
  }

  lemma DifferenceSame(x: Vec, r: Vec, cs: Vec, w0: Vec)
    requires VecSame(x, cs) && |w0| == |x| && VecSame(r, SubVec(w0, x))
    ensures VecSame(r, SubVec(w0, cs))
  {
    hide Same;
    forall i | 0 <= i < |r| ensures Same(r[i], SubVec(w0, cs)[i]) {
      SameRefl(w0[i]);
      SameMinus(w0[i], w0[i], x[i], cs[i]);
      SameTrans(r[i], Minus(w0[i], x[i]), Minus(w0[i], cs[i]));
    }
  }

  /** w0 - c s2 and its test. */
  method TestLow(ch: Poly, s2h: Vec, w0: Vec, B: int, z: seq<int>, ghost c: Poly, ghost s2: Vec)
    returns (r: Vec, ok: bool)
    requires Same(ch, Hat(c)) && Within(ch, 8 * Q) && Transformed(s2h, s2) && ZetaTable(z) && |w0| == |s2|
    requires VecWithin(w0, Q) && 0 < B <= (Q - 1) / 8
    ensures ok <==> Bounded(CentredVec(SubVec(w0, MulVec(c, s2))), B)
    ensures ok ==> r == CentredVec(SubVec(w0, MulVec(c, s2)))
  {
    hide Same, Within, Hat, Transformed, ZetaTable, MulVec, Bounded, CentredPoly, VecWithin;
    var x := TimesChallenge(ch, s2h, c, s2, z);
    var a := VecSub(w0, x, Q, INVERTED);
    VecWider(a, Q + INVERTED, 100 * Q);
    r := VecReduce(a);
    DifferenceSame(x, r, MulVec(c, s2), w0);
    NormLift(r, SubVec(w0, MulVec(c, s2)), B);
    VecWider(r, REDUCED, Q);
    var bad := VecChkNorm(r, B);
    ok := !bad;
  }

  lemma VecSameTrans(a: Vec, b: Vec, c: Vec)
    requires VecSame(a, b) && VecSame(b, c)
    ensures VecSame(a, c)
  {
    hide Same;
    forall i | 0 <= i < |a| ensures Same(a[i], c[i]) { SameTrans(a[i], b[i], c[i]); }
  }

  /** c t0 and its test. */
  method TestT0(ch: Poly, t0h: Vec, B: int, z: seq<int>, ghost c: Poly, ghost t0: Vec) returns (u: Vec, ok: bool)
    requires Same(ch, Hat(c)) && Within(ch, 8 * Q) && Transformed(t0h, t0) && ZetaTable(z) && 0 < B <= (Q - 1) / 8
    ensures ok <==> Bounded(CentredVec(MulVec(c, t0)), B)
    ensures ok ==> u == CentredVec(MulVec(c, t0))
  {
    hide Same, Within, Hat, Transformed, ZetaTable, MulVec, Bounded, CentredPoly, VecWithin;
    var x := TimesChallenge(ch, t0h, c, t0, z);
    VecWider(x, INVERTED, 100 * Q);
    u := VecReduce(x);
    VecSameTrans(u, x, MulVec(c, t0));
    NormLift(u, MulVec(c, t0), B);
    VecWider(u, REDUCED, Q);
    var bad := VecChkNorm(u, B);
    ok := !bad;
  }

  // ------------------------------------------------------------ one candidate

  /** Everything that stays the same over the attempts: the expanded key on transforms. */
  datatype Prepared = Prepared(A: Matrix, s1h: Vec, s2h: Vec, t0h: Vec, z: seq<int>) {
    ghost predicate For(p: Params, k: SecretKey) {
      k.Shape(p) && MatrixShape(A, p) && (forall i | 0 <= i < |A| :: VecWithin(A[i], Q)) && ZetaTable(z)
      && Transformed(s1h, k.s1) && Transformed(s2h, k.s2) && Transformed(t0h, k.t0)
    }
  }

  lemma RoundRanges(w: Vec, A: Matrix, y: Vec, den: Den)
    requires (forall i | 0 <= i < |A| :: |A[i]| == |y|) && w == Apply(A, y)
    ensures VecWithin(LowVec(w, den), Q) && forall i | 0 <= i < |w| :: InRange(HighVec(w, den)[i], 0, Steps(den) - 1)
  {
    hide Decompose, Unhat, Dot;
    forall i, j | 0 <= i < |w| && 0 <= j < 256
      ensures 0 <= HighVec(w, den)[i][j] <= Steps(den) - 1 && -Q <= LowVec(w, den)[i][j] <= Q
    {
      DecomposeParts(w[i][j], den);
    }
  }

  /** t is the candidate of y under the key. */
  ghost predicate AttemptOf(p: Params, env: Env, k: SecretKey, A: Matrix, mu: seq<byte>, y: Vec, t: Attempt) {
    k.Shape(p) && MatrixShape(A, p) && |y| == p.L() && t == Respond(p, env, k, mu, y, Apply(A, y))
  }

  ghost predicate LowOfCommitment(p: Params, A: Matrix, y: Vec, w0: Vec) {
    MatrixShape(A, p) && |y| == p.L() && w0 == LowVec(Apply(A, y), p.GammaDen()) && VecWithin(w0, Q)
  }

  /** w and c~: the commitment, hashed; the output buffer ends as c~ over packed w1. */
  method CommitHash(p: Params, sig: array<byte>, mu: seq<byte>, y: Vec, q: Prepared, ghost env: Env, ghost k: SecretKey,
      ghost t: Attempt) returns (w1: Vec, w0: Vec, ct: seq<byte>)
    requires AttemptOf(p, env, k, q.A, mu, y, t) && q.For(p, k) && sig.Length == p.SigBytes() &&
      VecWithin(y, p.Gamma1())
    modifies sig
    ensures t.Shape(p) && w1 == t.w1 && ct == t.ctilde && sig[..] == Scratch(p, old(sig[..]), t)
    ensures LowOfCommitment(p, q.A, y, w0)
  {
    hide VecWithin, Transformed, ZetaTable, PlainVec, Apply, HighVec, LowVec, InRange, KeccakSponge.Shake256, MulVec,
      AddVec, SubVec, CentredVec, HintVec, Overlay;
    VecWider(y, p.Gamma1(), Q);
    var w := Commit(q.A, y, q.z);
    w1, w0 := VecDecompose(w, p.GammaDen());
    RoundRanges(w, q.A, y, p.GammaDen());
    var b := StoreW1Vec(p, w1);
    Sizes(p);
    ghost var buf := sig[..];
    WriteFront(sig, b);
    FrontOf(buf, b);
    assert sig[..|b|] == sig[..][..|b|];
    ct := HashTwo(mu, sig[..|b|], p.CTilde());
    WriteFront(sig, ct);
  }

  lemma FrontOf(buf: seq<byte>, x: seq<byte>)
    requires |x| <= |buf|
    ensures Overlay(buf, x)[..|x|] == x
  {
  }

  /** From the commitment and its hash on: the tests, the hints, the signature. */
  method Answer(p: Params, env: Env, ct: seq<byte>, y: Vec, w1: Vec, w0: Vec, q: Prepared, ghost k: SecretKey,
      ghost mu: seq<byte>, ghost w: Vec, ghost t: Attempt) returns (accepted: bool, s: seq<byte>)
    requires env.Valid(p) && q.For(p, k) && |y| == p.L() && |w| == p.K() && t == Respond(p, env, k, mu, y, w)
    requires ct == t.ctilde && w1 == t.w1 && w0 == LowVec(w, p.GammaDen()) && VecWithin(w0, Q) &&
      VecWithin(y, p.Gamma1())
    ensures accepted == t.Accepted(p) && (accepted ==> s == SigEncode(p, t.ctilde, t.z, t.h))
  {
    hide VecWithin, Transformed, ZetaTable, PlainVec, HighVec, LowVec, InRange, Same, Within, Hat, Bounded, HintWeight,
      SigEncode, MulVec, AddVec, SubVec, CentredVec, HintVec, MatrixShape, IsHints;
    var den := p.GammaDen();
    ghost var c := env.ball(ct);
    ChallengeReady(p, env, ct);
    var ch := PolyNtt(env.ball(ct), q.z);
    s := [];
    var zz, okZ := TestZ(p, ch, q.s1h, y, q.z, c, k.s1);
    if !okZ { return false, s; }
    var r, okR := TestLow(ch, q.s2h, w0, Gamma2(den) - p.Beta(), q.z, c, k.s2);
    if !okR { return false, s; }
    var u, okU := TestT0(ch, q.t0h, Gamma2(den), q.z, c, k.t0);
    if !okU { return false, s; }
    BoundedWithin(r, Gamma2(den) - p.Beta());
    BoundedWithin(u, Gamma2(den));
    var v := VecAdd(r, u, Q, Q);
    var h, n := VecMakeHint(v, w1, den);
    if n > p.Omega() { return false, s; }
    ZRange(p, zz);
    s := WriteSig(p, ct, zz, h);
    accepted := true;
  }

  /** What one pass of the loop leaves in the output buffer. */
  ghost predicate Leaves(p: Params, t: Attempt, accepted: bool, before: seq<byte>, after: seq<byte>) {
    t.Shape(p) && |before| == p.SigBytes() && accepted == t.Accepted(p)
    && after == if accepted then SigEncode(p, t.ctilde, t.z, t.h) else Scratch(p, before, t)
  }

  /** One pass of the loop: the candidate either fills the signature or leaves its scratch. */
  method TryCandidate(p: Params, env: Env, sig: array<byte>, mu: seq<byte>, seed: seq<byte>, attempt: nat, q: Prepared,
      ghost k: SecretKey) returns (accepted: bool)
    requires env.Valid(p) && q.For(p, k) && sig.Length == p.SigBytes() && attempt < ATTEMPTS
    modifies sig
    ensures Leaves(p, TryOnce(p, env, k, q.A, mu, seed, attempt), accepted, old(sig[..]), sig[..])
  {
    hide VecWithin, Transformed, ZetaTable, Apply, LowVec, Respond, HintWeight, Bounded, Env.Valid, SigEncode,
      MaskVec, Overlay;
    ghost var t := TryOnce(p, env, k, q.A, mu, seed, attempt);
    ghost var buf := sig[..];
    var y := ExpandMask(p, seed, attempt);
    var w1, w0, ct := CommitHash(p, sig, mu, y, q, env, k, t);
    var s;
    accepted, s := Answer(p, env, ct, y, w1, w0, q, k, mu, Apply(q.A, y), t);
    if accepted {
      WriteFront(sig, s);
      WholeOverlay(buf, s);
    }
  }

  lemma ChallengeReady(p: Params, env: Env, ct: seq<byte>)
    requires env.Valid(p)
    ensures Within(env.ball(ct), Q)
  {
    assert InRange(env.ball(ct), -1, 1);
  }

  lemma BoundedWithin(v: Vec, B: int)
    requires Bounded(v, B) && B <= Q
    ensures VecWithin(v, Q)
  {
    forall i | 0 <= i < |v| ensures Within(v[i], Q) { assert InRange(v[i], 1 - B, B - 1); }
  }

  lemma ZRange(p: Params, z: Vec)
    requires Bounded(z, p.Gamma1() - p.Beta())
    ensures forall i | 0 <= i < |z| :: InRange(z[i], 1 - p.Gamma1(), p.Gamma1())
  {
    forall i | 0 <= i < |z| ensures InRange(z[i], 1 - p.Gamma1(), p.Gamma1()) {
      assert InRange(z[i], 1 - (p.Gamma1() - p.Beta()), p.Gamma1() - p.Beta() - 1);
    }
  }

  lemma WholeOverlay(buf: seq<byte>, s: seq<byte>)
    requires |s| == |buf|
    ensures forall b: seq<byte> | |b| == |buf| :: Overlay(b, s) == s
  {
  }

  // ------------------------------------------------------------ the whole signer

  /** Entry (i, j) is sampled with nonce 256 i + j. */
  method MatrixExpand(p: Params, env: Env, rho: seq<byte>) returns (A: Matrix)
    ensures A == ExpandA(p, env, rho)
  {
    A := [];
    for i := 0 to p.K()
      invariant |A| == i && forall k | 0 <= k < i :: A[k] == ExpandRow(p, env, rho, k)
    {
      var row: Vec := [];
      for j := 0 to p.L()
        invariant |row| == j && forall k | 0 <= k < j :: row[k] == env.uniform(rho, 256 * i + k)
      {
        row := row + [env.uniform(rho, 256 * i + j)];
      }
      A := A + [row];
    }
  }

  lemma MatrixRange(p: Params, env: Env, rho: seq<byte>)
    requires env.Valid(p)
    ensures forall i | 0 <= i < p.K() :: VecWithin(ExpandA(p, env, rho)[i], Q)
  {
    forall i, j | 0 <= i < p.K() && 0 <= j < p.L() ensures Within(ExpandA(p, env, rho)[i][j], Q) {
      assert InRange(env.uniform(rho, 256 * i + j), 0, Q - 1);
    }
  }

  lemma LoadRange(s: seq<byte>, n: nat, c: int, w: nat)
    requires |s| == n * (32 * w) && -Q <= c - Pow2(w) + 1 && c <= Q
    ensures VecWithin(LoadVec(s, n, c, w), Q)
  {
    hide LoadVec;
    StoreLoadVec(s, n, c, w);
  }

  /** Everything unpacked from key bytes is in the transform's input range. */
  lemma KeyRange(p: Params, sk: seq<byte>)
    requires |sk| == p.SkBytes()
    ensures var k := UnpackSk(p, sk);
      VecWithin(k.s1, Q) && VecWithin(k.s2, Q) && VecWithin(k.t0, Q)
  {
    hide LoadVec, VecWithin;
    Pow2Values();
    SumTimes(p.L(), p.K(), p.EtaBytes());
    var a := 128 + p.L() * p.EtaBytes();
    var b := a + p.K() * p.EtaBytes();
    LoadRange(sk[128..a], p.L(), p.Eta(), p.EtaBits());
    LoadRange(sk[a..b], p.K(), p.Eta(), p.EtaBits());
    LoadRange(sk[b..], p.K(), 4096, 13);
  }

  method Prepare(p: Params, env: Env, k: SecretKey) returns (q: Prepared)
    requires env.Valid(p) && k.Shape(p) && VecWithin(k.s1, Q) && VecWithin(k.s2, Q) && VecWithin(k.t0, Q)
    ensures q.For(p, k) && q.A == ExpandA(p, env, k.rho)
  {
    hide VecWithin, Transformed, ZetaTable;
    var z := BuildZetas();
    var A := MatrixExpand(p, env, k.rho);
    MatrixRange(p, env, k.rho);
    var s1 := VecNtt(k.s1, z);
    var s2 := VecNtt(k.s2, z);
    var t0 := VecNtt(k.t0, z);
    q := Prepared(A, s1, s2, t0, z);
  }

  /** The rejection loop: 0 and a signature, or -1 after the last attempt. */
  method SignAttempts(p: Params, env: Env, sig: array<byte>, mu: seq<byte>, seed: seq<byte>, q: Prepared,
      ghost k: SecretKey)
      returns (rc: int)
    requires env.Valid(p) && q.For(p, k) && sig.Length == p.SigBytes()
    modifies sig
    ensures (rc, sig[..]) == SignLoop(p, env, k, q.A, mu, seed, 0, old(sig[..]))
  {
    hide VecWithin, Transformed, ZetaTable, TryOnce, Env.Valid, Attempt.Accepted, Attempt.Shape, SigEncode, Scratch;
    var attempt := 0;
    ghost var start := sig[..];
    while attempt < ATTEMPTS
      invariant 0 <= attempt <= ATTEMPTS
      invariant SignLoop(p, env, k, q.A, mu, seed, 0, start) == SignLoop(p, env, k, q.A, mu, seed, attempt, sig[..])
    {
      ghost var before := sig[..];
      var accepted := TryCandidate(p, env, sig, mu, seed, attempt, q, k);
      LoopStep(p, env, k, q.A, mu, seed, attempt, before, accepted, sig[..]);
      if accepted { return 0; }
      attempt := attempt + 1;
    }
    return -1;
  }

  lemma LoopStep(p: Params, env: Env, k: SecretKey, A: Matrix, mu: seq<byte>, seed: seq<byte>, attempt: nat,
      before: seq<byte>, accepted: bool, after: seq<byte>)
    requires k.Shape(p) && MatrixShape(A, p) && attempt < ATTEMPTS && |before| == |after| == p.SigBytes()
    requires Leaves(p, TryOnce(p, env, k, A, mu, seed, attempt), accepted, before, after)
    ensures LoopOutcome(p, env, k, A, mu, seed, attempt, before, accepted, after)
  {
    hide TryOnce, SigEncode, Scratch;
  }

  ghost predicate LoopOutcome(p: Params, env: Env, k: SecretKey, A: Matrix, mu: seq<byte>, seed: seq<byte>,
      attempt: nat, before: seq<byte>, accepted: bool, after: seq<byte>) {
    k.Shape(p) && MatrixShape(A, p) && attempt < ATTEMPTS && |before| == |after| == p.SigBytes()
    && SignLoop(p, env, k, A, mu, seed, attempt, before)
      == if accepted then (0, after) else SignLoop(p, env, k, A, mu, seed, attempt + 1, after)
  }

  /** ML-DSA.Sign_internal below mu, as the code runs it. */
  method SignMessage(p: Params, env: Env, sig: array<byte>, mu: seq<byte>, rnd: seq<byte>, sk: seq<byte>)
    returns (rc: int)
    requires env.Valid(p) && sig.Length == p.SigBytes() && |sk| == p.SkBytes()
    modifies sig
    ensures (rc, sig[..]) == SignMu(p, env, mu, rnd, sk, old(sig[..]))
  {
    hide UnpackSk, VecWithin, SignLoop, Bounded, Env.Valid, KeccakSponge.Shake256;
    var k := ReadSk(p, sk);
    KeyRange(p, sk);
    var bad := VecChkNorm(k.s1, p.Eta() + 1);
    if bad { return -1; }
    bad := VecChkNorm(k.s2, p.Eta() + 1);
    if bad { return -1; }
    var seed := HashThree(k.key, rnd, mu, 64);
    var q := Prepare(p, env, k);
    rc := SignAttempts(p, env, sig, mu, seed, q, k);
  }
}
