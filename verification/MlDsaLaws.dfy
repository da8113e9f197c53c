/** ML-DSA in the ring, with no transform left: what an accepted signature says, what the signer computes and when
    it succeeds, and what key generation makes. */
module MlDsaLaws {
  import opened Options
  import opened ModArith
  import opened MlDsaModulus
  import opened Bits
  import opened Radix
  import opened NttTree
  import opened NegacyclicRing
  import opened MlDsaNtt
  import opened MlDsaRing
  import opened MlDsaParams
  import opened MlDsaRounding
  import opened MlDsaPacking
  import opened MlDsaHints
  import opened MlDsaScheme
  import opened MlDsaCorrect
  import KeccakSponge

  // ------------------------------------------------------------ a row of A v in the ring

  /** a_0 v_0 + ... + a_(n-1) v_(n-1), the entries being ring elements whose transforms make the row. */
  function RowSum(row: Vec, v: Vec, n: nat): (r: Poly)
    requires n <= |row| && n <= |v|
    decreases n
  {
    if n == 0 then ZeroPoly() else Plus(RowSum(row, v, n - 1), Product(Unhat(row[n - 1]), v[n - 1]))
  }

  lemma UnhatZero()
    ensures Same(Unhat(ZeroPoly()), ZeroPoly())
  {
    hide Unhat, Same;
    UnhatScale(0, ZeroPoly());
    assert Scale(0, ZeroPoly()) == ZeroPoly();
    assert Scale(0, Unhat(ZeroPoly())) == ZeroPoly();
  }

  /** A transformed entry times a transformed component is the product of the two in the ring. */
  lemma EntryProduct(a: Poly, v: Poly)
    ensures Same(Unhat(Pointwise(a, Hat(v))), Product(Unhat(a), v))
  {
    hide Hat, Unhat, Same, Product, Pointwise;
    HatUnhat(a);
    SameSym(Hat(Unhat(a)), a);
    SameRefl(Hat(v));
    SamePointwise(a, Hat(Unhat(a)), Hat(v), Hat(v));
    UnhatSame(Pointwise(a, Hat(v)), Pointwise(Hat(Unhat(a)), Hat(v)));
    ProductByTransform(Unhat(a), v);
    SameTrans(Unhat(Pointwise(a, Hat(v))), Unhat(Pointwise(Hat(Unhat(a)), Hat(v))), Product(Unhat(a), v));
  }

  lemma {:induction false} DotIsSum(row: Vec, v: Vec, n: nat)
    requires n <= |row| && n <= |v|
    ensures Same(Unhat(Dot(row, v, n)), RowSum(row, v, n))
    decreases n
  {
    hide Hat, Unhat, Same, Product, Pointwise, Plus;
    if n == 0 {
      UnhatZero();
    } else {
      var d, e := Dot(row, v, n - 1), Pointwise(row[n - 1], Hat(v[n - 1]));
      DotIsSum(row, v, n - 1);
      EntryProduct(row[n - 1], v[n - 1]);
      UnhatPlus(d, e);
      SamePlus(Unhat(d), RowSum(row, v, n - 1), Unhat(e), Product(Unhat(row[n - 1]), v[n - 1]));
    }
  }

  lemma UnhatMinus(a: Poly, b: Poly)
    ensures Same(Unhat(Minus(a, b)), Minus(Unhat(a), Unhat(b)))
  {
    hide Unhat, Same;
    var m := Scale(-1, b);
    assert Minus(a, b) == Plus(a, m);
    UnhatPlus(a, m);
    UnhatScale(-1, b);
    SameRefl(Unhat(a));
    SamePlus(Unhat(a), Unhat(a), Unhat(m), Scale(-1, Unhat(b)));
    assert Plus(Unhat(a), Scale(-1, Unhat(b))) == Minus(Unhat(a), Unhat(b));
  }

  /** What the verifier recomputes in a row is A z - c t1 2^13 in the ring. */
  lemma RecomputedIs(row: Vec, z: Vec, c: Poly, t1: Poly)
    requires |row| == |z|
    ensures RecomputedRow(row, z, c, t1) == Canon(Minus(RowSum(row, z, |z|), Product(c, Scale(8192, t1))))
  {
    hide Hat, Unhat, Same, Product, Pointwise, Dot, RowSum, Minus;
    var d, l := Dot(row, z, |z|), Lifted(t1);
    var e := Pointwise(Hat(c), Hat(l));
    DotIsSum(row, z, |z|);
    ProductByTransform(c, l);
    SameMinus(Unhat(d), RowSum(row, z, |z|), Unhat(e), Product(c, l));
    UnhatMinus(d, e);
    SameTrans(Unhat(Minus(d, e)), Minus(Unhat(d), Unhat(e)), Minus(RowSum(row, z, |z|), Product(c, l)));
    CanonUnique(Unhat(Minus(d, e)), Minus(RowSum(row, z, |z|), Product(c, l)));
  }

  // ------------------------------------------------------------ the matrix

  /** The two nonce bytes of entry (i, j) of A are its column and its row, section 6.3 of FIPS 204's RejNTTPoly
      input, so no two entries share a stream. */
  lemma MatrixNonces(p: Params, env: Env, rho: seq<byte>, i: nat, j: nat)
    requires i < p.K() && j < p.L()
    ensures ExpandA(p, env, rho)[i][j] == env.uniform(rho, 256 * i + j) && NonceBytes(256 * i + j) == [j, i]
  {
    DivModUnique(256 * i + j, 256, i, j);
  }

  // ------------------------------------------------------------ verification

  /** A hint bit moves the high bits by one step at most. */
  lemma HintStaysNear(a: int, h: nat, den: Den)
    requires 0 <= a < Q && (h == 0 || h == 1)
    ensures var w1 := UseHint(a, h, den);
      0 <= w1 < Steps(den) && -(2 * Gamma2(den) + 1) <= Centred(a - 2 * Gamma2(den) * w1) <= 2 * Gamma2(den) + 1
  {
    hide Decompose, Centred;
    DecomposeStep(a, den);
    var w1 := UseHint(a, h, den);
    var e := a - 2 * Gamma2(den) * w1;
    hide UseHint, Gamma2, Steps;
    var s := HintError(a, h, den);
    CongTrans(Centred(e), e, s, Q);
    CentredUnique(e, s);
  }

  /** The error mod q: one step, one step more by the wrap at q - 1. */
  lemma HintError(a: int, h: nat, den: Den) returns (s: int)
    requires 0 <= a < Q && (h == 0 || h == 1)
    ensures 0 <= UseHint(a, h, den) < Steps(den)
    ensures -(2 * Gamma2(den) + 1) <= s <= 2 * Gamma2(den) + 1
    ensures Cong(a - 2 * Gamma2(den) * UseHint(a, h, den), s, Q)
  {
    var c := NearestStep(a, den);
    if den == 88 { Moves88(a, h); } else { Moves32(a, h); }
    hide UseHint, NearestStep;
    s := ErrorSteps(a, c, h, Gamma2(den), Steps(den), 2 * Gamma2(den) * c);
  }

  lemma Moves88(a: int, h: nat)
    requires 0 <= a < Q
    ensures UseHint(a, h, 88) == Moved(a, NearestStep(a, 88), h, 95232, 44)
  {
    DecomposeStep(a, 88);
    hide Decompose, NearestStep;
    assert Steps(88) == 44 && Gamma2(88) == 95232;
  }

  lemma Moves32(a: int, h: nat)
    requires 0 <= a < Q
    ensures UseHint(a, h, 32) == Moved(a, NearestStep(a, 32), h, 261888, 16)
  {
    DecomposeStep(a, 32);
    hide Decompose, NearestStep;
    assert Steps(32) == 16 && Gamma2(32) == 261888;
    var c := NearestStep(a, 32);
    var a1 := if c == 16 then 0 else c;
    Wrap16(a1);
  }

  lemma Wrap16(a: int)
    requires 0 <= a < 16
    ensures (a + 1) % 16 == (if a == 15 then 0 else a + 1) && (a - 1) % 16 == (if a == 0 then 15 else a - 1)
  {
  }

  /** The step c of a, moved by the hint. */
  function Moved(a: int, c: int, h: nat, g: int, m: int): int {
    var a1 := if c == m then 0 else c;
    var a0 := if c == m then a - Q else a - 2 * g * c;
    if h == 0 then a1 else if a0 > 0 then (if a1 == m - 1 then 0 else a1 + 1) else (if a1 == 0 then m - 1 else a1 - 1)
  }

  lemma ErrorSteps(a: int, c: int, h: nat, g: int, m: int, base: int) returns (s: int)
    requires (g == 95232 && m == 44) || (g == 261888 && m == 16)
    requires 0 <= a < Q && 0 <= c <= m && base == 2 * g * c && base - g < a <= base + g
    ensures 0 <= Moved(a, c, h, g, m) < m
    ensures -(2 * g + 1) <= s <= 2 * g + 1 && Cong(a - 2 * g * Moved(a, c, h, g, m), s, Q)
  {
    var w := Moved(a, c, h, g, m);
    var e := a - 2 * g * w;
    s := if e > Q / 2 then e - Q else if e < -(Q / 2) then e + Q else e;
    if g == 95232 { assert e == a - 190464 * w; } else { assert e == a - 523776 * w; }
    CongIntro(e, s, Q, if e > Q / 2 then 1 else if e < -(Q / 2) then -1 else 0);
  }

  lemma CentredUnique(e: int, s: int)
    requires Cong(Centred(e), s, Q) && -(Q / 2) <= s <= Q / 2
    ensures Centred(e) == s
  {
    hide Centred;
    CongUnique(Centred(e), s, Q);
  }

  /** A z - c t1 2^13, one row. */
  function VerifyRow(row: Vec, z: Vec, c: Poly, t1: Poly): (r: Poly)
    requires |row| == |z|
  {
    Minus(RowSum(row, z, |z|), Product(c, Scale(8192, t1)))
  }

  /** w1 is within 2 gamma2 + 1 of the row, in every coefficient. */
  ghost predicate NearRow(r: Poly, w1: Poly, g: int, m: int) {
    forall n | 0 <= n < 256 :: 0 <= w1[n] < m && -(2 * g + 1) <= Centred(r[n] - 2 * g * w1[n]) <= 2 * g + 1
  }

  lemma RowIsNear(row: Vec, z: Vec, c: Poly, t1: Poly, h: Poly, den: Den)
    requires |row| == |z| && IsFlags(h)
    ensures var w1 := UseHintPoly(RecomputedRow(row, z, c, t1), h, den);
      NearRow(VerifyRow(row, z, c, t1), w1, Gamma2(den), Steps(den))
  {
    hide Centred, UseHint, RecomputedRow, VerifyRow;
    RecomputedAs(row, z, c, t1);
    var a, r := RecomputedRow(row, z, c, t1), VerifyRow(row, z, c, t1);
    var w1 := UseHintPoly(a, h, den);
    forall n | 0 <= n < 256
      ensures 0 <= w1[n] < Steps(den)
      ensures -(2 * Gamma2(den) + 1) <= Centred(r[n] - 2 * Gamma2(den) * w1[n]) <= 2 * Gamma2(den) + 1
    {
      HintStaysNear(a[n], h[n], den);
      CentredOfMod(r[n], 2 * Gamma2(den) * w1[n]);
    }
  }

  lemma RecomputedAs(row: Vec, z: Vec, c: Poly, t1: Poly)
    requires |row| == |z|
    ensures RecomputedRow(row, z, c, t1) == Canon(VerifyRow(row, z, c, t1))
  {
    RecomputedIs(row, z, c, t1);
    hide RecomputedRow, RowSum, Product, Canon, Scale, Minus;
  }

  lemma CentredOfMod(x: int, y: int)
    ensures Centred(x % Q - y) == Centred(x - y)
  {
    hide Cong;
    CongMod(x, Q);
    CongRefl(y, Q);
    CongSub(x % Q, x, y, y, Q);
    CongSameMod(x % Q - y, x - y, Q);
  }

  /** What the verifier accepted: a signature that begins with c~, the hash of mu and a w1 close to A z - c t1 2^13, and
      then the packing of z, which is short. */
  lemma VerifyAccepts(p: Params, env: Env, sig: seq<byte>, mu: seq<byte>, pk: seq<byte>)
    returns (ct: seq<byte>, z: Vec, w1: Vec, A: Matrix, t1: Vec)
    requires |sig| == p.SigBytes() && |pk| == p.PkBytes() && VerifyMu(p, env, sig, mu, pk) == 0
    ensures |z| == p.L() && |w1| == |A| == |t1| == p.K()
    ensures ct == KeccakSponge.Shake256(mu + PlainVec(w1, p.W1Bits()), p.CTilde())
    ensures forall j, n | 0 <= j < p.L() && 0 <= n < 256 :: -(p.Gamma1() - p.Beta()) < z[j][n] < p.Gamma1() - p.Beta()
    ensures forall i | 0 <= i < p.K() ::
      |A[i]| == |z|
      && NearRow(VerifyRow(A[i], z, env.ball(ct), t1[i]), w1[i], Gamma2(p.GammaDen()), Steps(p.GammaDen()))
    ensures ct + StoreVec(z, p.Gamma1(), p.ZBits()) <= sig
    ensures A == ExpandA(p, env, UnpackPk(p, pk).0) && t1 == UnpackPk(p, pk).1
  {
    hide PlainVec, StoreVec, VerifyRow, NearRow, RecomputedRow, UseHintPoly, ExpandA, SigEncode, LoadVec, HintRead,
      HintWeight, IsFlags, InRange, ReadPlain, Bounded, KeccakSponge.Shake256;
    var s := SigDecode(p, sig).value;
    A, t1, ct := ExpandA(p, env, UnpackPk(p, pk).0), UnpackPk(p, pk).1, s.ctilde;
    z, w1 := s.z, UseHintVec(Recomputed(A, s.z, env.ball(ct), t1), s.h, p.GammaDen());
    SigParts(p, sig, s);
    forall i | 0 <= i < p.K()
      ensures NearRow(VerifyRow(A[i], z, env.ball(ct), t1[i]), w1[i], Gamma2(p.GammaDen()), Steps(p.GammaDen()))
    {
      RowIsNear(A[i], z, env.ball(ct), t1[i], s.h[i], p.GammaDen());
    }
    ShortParts(z, p.Gamma1() - p.Beta());
  }

  lemma SigParts(p: Params, sig: seq<byte>, s: Signature)
    requires |sig| == p.SigBytes() && SigDecode(p, sig) == Some(s)
    ensures s.ctilde + StoreVec(s.z, p.Gamma1(), p.ZBits()) <= sig
  {
    hide LoadVec, StoreVec, InRange, HintRead;
    var n := p.CTilde();
    var m := n + p.L() * p.ZBytes();
    StoreLoadVec(sig[n..m], p.L(), p.Gamma1(), p.ZBits());
    assert sig[..n] + sig[n..m] == sig[..m];
  }

  lemma ShortParts(z: Vec, bound: int)
    requires Bounded(z, bound)
    ensures forall j, n | 0 <= j < |z| && 0 <= n < 256 :: -bound < z[j][n] < bound
  {
    forall j, n | 0 <= j < |z| && 0 <= n < 256 ensures -bound < z[j][n] < bound { BoundedAt(z, bound, j); }
  }

  /** The rows the verifier rounds. */
  function VerifyRows(A: Matrix, z: Vec, c: Poly, t1: Vec): (r: Vec)
    requires (forall i | 0 <= i < |A| :: |A[i]| == |z|) && |t1| == |A|
    ensures |r| == |A|
  {
    seq(|A|, i requires 0 <= i < |A| => Canon(VerifyRow(A[i], z, c, t1[i])))
  }

  lemma RecomputedRows(A: Matrix, z: Vec, c: Poly, t1: Vec)
    requires (forall i | 0 <= i < |A| :: |A[i]| == |z|) && |t1| == |A|
    ensures Recomputed(A, z, c, t1) == VerifyRows(A, z, c, t1)
  {
    hide RecomputedRow, VerifyRow, Canon;
    forall i | 0 <= i < |A| ensures Recomputed(A, z, c, t1)[i] == VerifyRows(A, z, c, t1)[i] {
      RecomputedAs(A[i], z, c, t1[i]);
    }
  }

  /** Exactly which encodings verify: short z, and c~ the hash of mu and the rounded rows. */
  lemma VerifyIff(p: Params, env: Env, ct: seq<byte>, z: Vec, h: Vec, mu: seq<byte>, pk: seq<byte>)
    requires |ct| == p.CTilde() && |z| == p.L() && |h| == p.K() && IsHints(h) && HintWeight(h) <= p.Omega()
    requires VecRange(z, 1 - p.Gamma1(), p.Gamma1()) && |pk| == p.PkBytes()
    ensures var rows := VerifyRows(ExpandA(p, env, pk[..32]), z, env.ball(ct), UnpackPk(p, pk).1);
      var w1 := UseHintVec(rows, h, p.GammaDen());
      VerifyMu(p, env, SigEncode(p, ct, z, h), mu, pk) == 0
      <==> Bounded(z, p.Gamma1() - p.Beta()) && ct == KeccakSponge.Shake256(mu + PlainVec(w1, p.W1Bits()), p.CTilde())
  {
    hide PlainVec, SigEncode, SigDecode, VecRange, Bounded, UseHintVec, Recomputed, VerifyRows, ExpandA, ReadPlain,
      IsHints, HintWeight;
    SigDecodeEncode(p, ct, z, h);
    RecomputedRows(ExpandA(p, env, pk[..32]), z, env.ball(ct), UnpackPk(p, pk).1);
  }

  /** A byte string that verifies is the encoding of its parts, with at most omega hints. */
  lemma VerifiedIsEncoding(p: Params, env: Env, sig: seq<byte>, mu: seq<byte>, pk: seq<byte>)
    returns (ct: seq<byte>, z: Vec, h: Vec)
    requires |sig| == p.SigBytes() && |pk| == p.PkBytes() && VerifyMu(p, env, sig, mu, pk) == 0
    ensures |ct| == p.CTilde() && |z| == p.L() && |h| == p.K() && IsHints(h) && HintWeight(h) <= p.Omega()
    ensures VecRange(z, 1 - p.Gamma1(), p.Gamma1()) && sig == SigEncode(p, ct, z, h)
  {
    hide SigEncode, SigDecode, VecRange, Bounded, UseHintVec, Recomputed, ExpandA, UnpackPk, HintWeight, IsHints;
    SigEncodeDecode(p, sig);
    var g := SigDecode(p, sig).value;
    ct, z, h := g.ctilde, g.z, g.h;
  }

  /** A signature accepted for two digests is a collision in SHAKE256. */
  lemma OneSignatureTwoDigests(p: Params, env: Env, sig: seq<byte>, mu: seq<byte>, nu: seq<byte>, pk: seq<byte>)
    returns (x: seq<byte>, y: seq<byte>)
    requires |sig| == p.SigBytes() && |pk| == p.PkBytes() && |mu| == |nu| && mu != nu
    requires VerifyMu(p, env, sig, mu, pk) == 0 && VerifyMu(p, env, sig, nu, pk) == 0
    ensures x != y && |x| == |y| && mu <= x && nu <= y
    ensures KeccakSponge.Shake256(x, p.CTilde()) == KeccakSponge.Shake256(y, p.CTilde())
  {
    hide VerifyMu, KeccakSponge.Shake256;
    var c, u := AcceptedHash(p, env, sig, mu, pk);
    var d, v := AcceptedHash(p, env, sig, nu, pk);
    SameFront(c, d, sig);
    x, y := mu + u, nu + v;
    Fronts(mu, nu, u, v);
  }

  lemma SameFront(a: seq<byte>, b: seq<byte>, s: seq<byte>)
    requires a <= s && b <= s && |a| == |b|
    ensures a == b
  {
    assert a == s[..|a|] == b;
  }

  lemma Fronts(a: seq<byte>, b: seq<byte>, u: seq<byte>, v: seq<byte>)
    requires |a| == |b| && a != b
    ensures a + u != b + v && a <= a + u && b <= b + v
  {
    assert (a + u)[..|a|] == a && (b + v)[..|b|] == b;
  }

  lemma AcceptedHash(p: Params, env: Env, sig: seq<byte>, mu: seq<byte>, pk: seq<byte>)
    returns (ct: seq<byte>, w: seq<byte>)
    requires |sig| == p.SigBytes() && |pk| == p.PkBytes() && VerifyMu(p, env, sig, mu, pk) == 0
    ensures |w| == p.K() * (32 * p.W1Bits()) && |ct| == p.CTilde() && ct <= sig
    ensures ct == KeccakSponge.Shake256(mu + w, p.CTilde())
  {
    hide PlainVec, VerifyRow, NearRow, ExpandA, UnpackPk, StoreVec, VerifyMu, KeccakSponge.Shake256;
    var z, w1, A, t1;
    ct, z, w1, A, t1 := VerifyAccepts(p, env, sig, mu, pk);
    w := PlainVec(w1, p.W1Bits());
    FrontOf(ct, StoreVec(z, p.Gamma1(), p.ZBits()), sig);
  }

  lemma FrontOf(a: seq<byte>, b: seq<byte>, s: seq<byte>)
    requires a + b <= s
    ensures a <= s
  {
    assert (a + b)[..|a|] == a;
  }

  // ------------------------------------------------------------ signing

  /** A y, one row, canonical. */
  function CommitRow(row: Vec, y: Vec): (r: Poly)
    requires |row| == |y|
  {
    Canon(RowSum(row, y, |y|))
  }

  lemma ApplyRow(A: Matrix, y: Vec, i: nat)
    requires (forall j | 0 <= j < |A| :: |A[j]| == |y|) && i < |A|
    ensures Apply(A, y)[i] == CommitRow(A[i], y)
  {
    hide Unhat, Dot, RowSum, Same;
    DotIsSum(A[i], y, |y|);
    CanonUnique(Unhat(Dot(A[i], y, |y|)), RowSum(A[i], y, |y|));
  }

  /** Component i of attempt a is read from the SHAKE256 stream of the seed and the nonce L a + i, low byte first. */
  lemma MaskBytes(p: Params, s: seq<byte>, a: nat, i: nat, n: nat)
    requires a < 1024 && i < p.L() && n == p.L() * a + i
    ensures n < 65536
    ensures StorePoly(MaskVec(p, s, a)[i], p.Gamma1(), p.ZBits())
         == KeccakSponge.Shake256(s + [n % 256, n / 256], p.ZBytes())
  {
    hide LoadPoly, StorePoly, KeccakSponge.Shake256, NonceBytes;
    MaskStream(p, s, n);
  }

  lemma MaskStream(p: Params, s: seq<byte>, n: nat)
    requires n < 65536
    ensures StorePoly(MaskPoly(p, s, n), p.Gamma1(), p.ZBits())
         == KeccakSponge.Shake256(s + [n % 256, n / 256], p.ZBytes())
  {
    hide LoadPoly, StorePoly, KeccakSponge.Shake256, InRange;
    var z := KeccakSponge.Shake256(s + NonceBytes(n), p.ZBytes());
    BytesAreDigits(z);
    StoreLoad(z, p.Gamma1(), p.ZBits());
  }

  lemma BytesAreDigits(z: seq<byte>)
    ensures Digits(z, 256)
  {
  }

  /** No two components of any two attempts share a nonce. */
  lemma MaskNoncesDiffer(p: Params, a: nat, i: nat, b: nat, j: nat)
    requires a < 1024 && i < p.L() && b < 1024 && j < p.L() && (a != b || i != j)
    ensures p.L() * a + i < 65536 && p.L() * b + j < 65536
    ensures NonceBytes(p.L() * a + i) != NonceBytes(p.L() * b + j)
  {
    var m, n := p.L() * a + i, p.L() * b + j;
    DivModUnique(m, p.L(), a, i);
    DivModUnique(n, p.L(), b, j);
    assert m == 256 * (m / 256) + m % 256 && n == 256 * (n / 256) + n % 256;
  }

  lemma {:induction false} LoopTries(p: Params, env: Env, k: SecretKey, A: Matrix, mu: seq<byte>, s: seq<byte>,
      from: nat, buf: seq<byte>) returns (a: nat)
    requires k.Shape(p) && MatrixShape(A, p) && from <= 1024 && |buf| == p.SigBytes()
    ensures from <= a <= 1024 && forall b | from <= b < a :: !TryOnce(p, env, k, A, mu, s, b).Accepted(p)
    ensures a == 1024 ==> SignLoop(p, env, k, A, mu, s, from, buf).0 == -1
    ensures a < 1024 ==>
      var t := TryOnce(p, env, k, A, mu, s, a);
      t.Accepted(p) && SignLoop(p, env, k, A, mu, s, from, buf) == (0, SigEncode(p, t.ctilde, t.z, t.h))
    decreases 1024 - from
  {
    hide TryOnce, SigEncode, Scratch, MatrixShape, Attempt.Accepted;
    if from == 1024 {
      a := 1024;
    } else {
      var t := TryOnce(p, env, k, A, mu, s, from);
      if t.Accepted(p) {
        a := from;
      } else {
        a := LoopTries(p, env, k, A, mu, s, from + 1, Scratch(p, buf, t));
      }
    }
  }

  /** The first accepted of the 1024 candidates drawn from the key, the randomness and mu is the signature; when
      there is none the code is -1, and a key out of range is refused with the buffer as it was. */
  lemma SignTries(p: Params, env: Env, mu: seq<byte>, rnd: seq<byte>, sk: seq<byte>, buf: seq<byte>,
      k: SecretKey, A: Matrix, s: seq<byte>) returns (a: nat)
    requires |sk| == p.SkBytes() && |buf| == p.SigBytes() && 128 <= |sk| && k == UnpackSk(p, sk)
    requires A == ExpandA(p, env, sk[..32]) && s == KeccakSponge.Shake256(sk[32..64] + rnd + mu, 64)
    ensures a <= 1024 && MatrixShape(A, p)
    ensures !KeyShort(p, k) ==> SignMu(p, env, mu, rnd, sk, buf) == (-1, buf)
    ensures KeyShort(p, k) ==> forall b | 0 <= b < a :: !TryOnce(p, env, k, A, mu, s, b).Accepted(p)
    ensures KeyShort(p, k) && a == 1024 ==> SignMu(p, env, mu, rnd, sk, buf).0 == -1
    ensures KeyShort(p, k) && a < 1024 ==>
      var t := TryOnce(p, env, k, A, mu, s, a);
      t.Accepted(p) && SignMu(p, env, mu, rnd, sk, buf) == (0, SigEncode(p, t.ctilde, t.z, t.h))
  {
    hide TryOnce, SigEncode, Bounded, SignLoop, Attempt.Accepted, ExpandA, LoadVec, KeccakSponge.Shake256,
      MatrixShape;
    ShortIs(p, k);
    hide KeyShort;
    KeyParts(p, sk);
    a := 0;
    if KeyShort(p, k) { a := LoopTries(p, env, k, A, mu, s, 0, buf); }
  }

  /** The coefficients of s1 and s2 lie in [-eta, eta]. */
  predicate KeyShort(p: Params, k: SecretKey) {
    (forall j, n | 0 <= j < |k.s1| && 0 <= n < 256 :: -(p.Eta() as int) <= k.s1[j][n] <= p.Eta())
    && (forall i, n | 0 <= i < |k.s2| && 0 <= n < 256 :: -(p.Eta() as int) <= k.s2[i][n] <= p.Eta())
  }

  lemma ShortIs(p: Params, k: SecretKey)
    ensures KeyShort(p, k) <==> Bounded(k.s1, p.Eta() + 1) && Bounded(k.s2, p.Eta() + 1)
  {
    ShortVec(k.s1, p.Eta());
    ShortVec(k.s2, p.Eta());
  }

  lemma ShortVec(v: Vec, eta: nat)
    ensures Bounded(v, eta + 1)
      <==> forall j, n | 0 <= j < |v| && 0 <= n < 256 :: -(eta as int) <= v[j][n] <= eta
  {
    if Bounded(v, eta + 1) { ShortParts(v, eta + 1); }
  }

  lemma KeyParts(p: Params, sk: seq<byte>)
    requires |sk| == p.SkBytes() && 128 <= |sk|
    ensures UnpackSk(p, sk).rho == sk[..32] && UnpackSk(p, sk).key == sk[32..64] && UnpackSk(p, sk).tr == sk[64..128]
  {
    hide LoadVec;
  }

  /** Every component of the mask, the commitment and the response of candidate a. */
  lemma CandidateIs(p: Params, env: Env, k: SecretKey, A: Matrix, mu: seq<byte>, s: seq<byte>, a: nat)
    returns (w: Vec)
    requires k.Shape(p) && MatrixShape(A, p) && a < 1024
    ensures |w| == p.K() && forall i | 0 <= i < p.K() :: w[i] == CommitRow(A[i], MaskVec(p, s, a))
    ensures var t := TryOnce(p, env, k, A, mu, s, a);
      t.ctilde == KeccakSponge.Shake256(mu + PlainVec(HighVec(w, p.GammaDen()), p.W1Bits()), p.CTilde())
      && Responds(t.z, MaskVec(p, s, a), env.ball(t.ctilde), k.s1)
  {
    hide CommitRow, HighVec, PlainVec, Product, Centred, MaskVec, LowVec, MulVec, Responds, IsFlags, InRange;
    var y := MaskVec(p, s, a);
    w := Apply(A, y);
    var t := TryOnce(p, env, k, A, mu, s, a);
    forall i | 0 <= i < p.K() ensures w[i] == CommitRow(A[i], y) { ApplyRow(A, y, i); }
    hide Apply;
    AttemptResponds(y, env.ball(t.ctilde), k.s1);
  }

  /** The four tests of FIPS 204, coefficient by coefficient: z, w0 - c s2 and c t0 short, few hints. */
  lemma AcceptedIff(p: Params, env: Env, k: SecretKey, mu: seq<byte>, y: Vec, w: Vec, t: Attempt, c: Poly)
    requires k.Shape(p) && |y| == p.L() && |w| == p.K() && t == Respond(p, env, k, mu, y, w) && c == env.ball(t.ctilde)
    ensures t.Shape(p)
    ensures t.Accepted(p) <==>
      Within(t.z, p.Gamma1() - p.Beta()) && LowWithin(w, c, k.s2, p.GammaDen(), Gamma2(p.GammaDen()) - p.Beta())
      && ProductWithin(c, k.t0, Gamma2(p.GammaDen())) && HintWeight(t.h) <= p.Omega()
  {
    hide Product, Centred, LowBits, Gamma2, PlainVec, HighVec, HintWeight, IsFlags, HintPoly, InRange, Bounded, Within,
      CentredVec, LowVec, MulVec, SubVec, KeccakSponge.Shake256, LowWithin, ProductWithin;
    AllShort(t.z, p.Gamma1() - p.Beta());
    LowShort(w, c, k.s2, p.GammaDen(), Gamma2(p.GammaDen()) - p.Beta());
    ProductShort(c, k.t0, Gamma2(p.GammaDen()));
  }

  /** Every coefficient of v below b in absolute value; of w0 - c s and of c s as centred residues. */
  predicate Within(v: Vec, b: int) { forall j, n | 0 <= j < |v| && 0 <= n < 256 :: Abs(v[j][n]) < b }

  predicate LowWithin(w: Vec, c: Poly, s: Vec, den: Den, b: int)
    requires |w| == |s|
  {
    forall i, n | 0 <= i < |w| && 0 <= n < 256 :: Abs(Centred(LowBits(w[i][n], den) - Product(c, s[i])[n])) < b
  }

  predicate ProductWithin(c: Poly, s: Vec, b: int) {
    forall i, n | 0 <= i < |s| && 0 <= n < 256 :: Abs(Centred(Product(c, s[i])[n])) < b
  }

  lemma LowShort(w: Vec, c: Poly, s: Vec, den: Den, b: int)
    requires |w| == |s|
    ensures Bounded(CentredVec(SubVec(LowVec(w, den), MulVec(c, s))), b) <==> LowWithin(w, c, s, den, b)
  {
    hide Product, Centred, LowBits, InRange, Bounded, Abs;
    var r := CentredVec(SubVec(LowVec(w, den), MulVec(c, s)));
    AllShort(r, b);
    forall i, n | 0 <= i < |w| && 0 <= n < 256
      ensures r[i][n] == Centred(LowBits(w[i][n], den) - Product(c, s[i])[n])
    {
    }
  }

  lemma ProductShort(c: Poly, s: Vec, b: int)
    ensures Bounded(CentredVec(MulVec(c, s)), b) <==> ProductWithin(c, s, b)
  {
    hide Product, Centred, InRange, Bounded, Abs;
    var r := CentredVec(MulVec(c, s));
    AllShort(r, b);
    forall i, n | 0 <= i < |s| && 0 <= n < 256 ensures r[i][n] == Centred(Product(c, s[i])[n]) { }
  }

  function Abs(x: int): nat { if x < 0 then -x else x }

  lemma AllShort(v: Vec, bound: int)
    ensures Bounded(v, bound) <==> Within(v, bound)
  {
    if Bounded(v, bound) { ShortParts(v, bound); }
  }

  /** A hint is set exactly where subtracting c s2 and adding c t0 moves the high bits. */
  lemma HintIff(w: Poly, a: Poly, b: Poly, den: Den, beta: nat, n: nat)
    requires n < 256 && 0 <= w[n] < Q
    requires Abs(Centred(LowBits(w[n], den) - a[n])) < Gamma2(den) - beta && Abs(Centred(b[n])) < Gamma2(den)
    ensures HintPoly(Plus(CentredPoly(Minus(LowPoly(w, den), a)), CentredPoly(b)), HighPoly(w, den), den)[n] == 1
      <==> HighBits((w[n] - a[n] + b[n]) % Q, den) != HighBits(w[n], den)
  {
    hide LowBits, HighBits, Centred, MakeHint, Gamma2;
    var rec := (w[n] - a[n] + b[n]) % Q;
    CongMod(w[n] - a[n] + b[n], Q);
    CongRefl(a[n], Q);
    CongAdd(rec, w[n] - a[n] + b[n], a[n], a[n], Q);
    HintScalar(rec, w[n], a[n], b[n], den);
  }

  // ------------------------------------------------------------ key generation

  /** t1 2^13 + t0 = A s1 + s2 in a row of the ring. */
  predicate KeyEquation(row: Vec, s1: Vec, s2: Poly, t1: Poly, t0: Poly) {
    |row| == |s1| && Canon(Plus(RowSum(row, s1, |s1|), s2)) == Plus(Scale(8192, t1), t0)
  }

  /** What the two encodings read as. */
  ghost predicate ReadsAs(p: Params, pk: seq<byte>, sk: seq<byte>, k: SecretKey, t1: Vec) {
    |pk| == p.PkBytes() && |sk| == p.SkBytes() && k == UnpackSk(p, sk) && t1 == UnpackPk(p, pk).1
  }

  /** What the two encodings hold, for every seed: rho and the hash of the public key, the small vectors by their
      nonces, and t1 2^13 + t0 = A s1 + s2 in the ring. */
  lemma KeyGenIs(p: Params, env: Env, seed: seq<byte>, rho: seq<byte>, rhop: seq<byte>, key: seq<byte>)
    returns (pk: seq<byte>, sk: seq<byte>, k: SecretKey, t1: Vec, A: Matrix)
    requires env.Valid(p) && |seed| == 32 && |rho| == 32 && |rhop| == 64 && |key| == 32
    requires rho + rhop + key == KeccakSponge.Shake256(seed + [p.K() as byte, p.L() as byte], 128)
    ensures rho <= pk && k.rho == rho && k.key == key && k.tr == KeccakSponge.Shake256(pk, 64)
    ensures |k.s1| == p.L() && forall j | 0 <= j < |k.s1| :: k.s1[j] == env.bounded(rhop, j)
    ensures |k.s2| == p.K() && forall i | 0 <= i < |k.s2| :: k.s2[i] == env.bounded(rhop, p.L() + i)
    ensures |A| == |t1| == |k.t0| == |k.s2|
    ensures forall i | 0 <= i < |A| :: KeyEquation(A[i], k.s1, k.s2[i], t1[i], k.t0[i]) && InRange(k.t0[i], -4095, 4096)
    ensures A == ExpandA(p, env, rho) && KeyGen(p, env, seed) == (pk, sk) && ReadsAs(p, pk, sk, k, t1)
  {
    hide UnpackSk, UnpackPk, PackSk, PackPk, KeyFits, MakeKey, KeyInputs, ExpandA, InRange, KeccakSponge.Shake256,
      KeyEquation, MatrixShape;
    SeedParts(rho, rhop, key);
    MakeKeyInputs(p, env, rho, rhop, key);
    k, t1 := MadeParts(p, env, rho, rhop, key);
    A := ExpandA(p, env, rho);
    pk, sk := PackPk(p, rho, t1), PackSk(p, k);
    GeneratedKey(p, A, k, t1);
    PackedPk(p, rho, t1);
    MadeShapes(p, A, k, t1);
    forall i | 0 <= i < p.K()
      ensures KeyEquation(A[i], k.s1, k.s2[i], t1[i], k.t0[i]) && InRange(k.t0[i], -4095, 4096)
    {
      MadeRow(p, A, k, t1, i);
    }
  }

  lemma SeedParts(rho: seq<byte>, rhop: seq<byte>, key: seq<byte>)
    requires |rho| == 32 && |rhop| == 64 && |key| == 32
    ensures var e := rho + rhop + key;
      e[..32] == rho && e[32..96] == rhop && e[96..] == key
  {
  }

  lemma MadeShapes(p: Params, A: Matrix, k: SecretKey, t1: Vec)
    requires KeyInputs(p, A, k, t1)
    ensures |A| == |t1| == |k.t0| == |k.s2| == p.K() && |k.s1| == p.L()
  {
  }

  lemma PackedPk(p: Params, rho: seq<byte>, t1: Vec)
    requires |rho| == 32 && |t1| == p.K()
    ensures rho <= PackPk(p, rho, t1)
  {
    hide PlainVec;
  }

  lemma MadeParts(p: Params, env: Env, rho: seq<byte>, rhop: seq<byte>, key: seq<byte>)
    returns (k: SecretKey, t1: Vec)
    requires |rho| == 32 && |key| == 32
    ensures k.rho == rho && k.key == key && |t1| == p.K() && k.tr == KeccakSponge.Shake256(PackPk(p, rho, t1), 64)
    ensures |k.s1| == p.L() && forall j | 0 <= j < |k.s1| :: k.s1[j] == env.bounded(rhop, j)
    ensures |k.s2| == p.K() && forall i | 0 <= i < |k.s2| :: k.s2[i] == env.bounded(rhop, p.L() + i)
    ensures MakeKey(p, env, rho, rhop, key) == (k, t1)
  {
    hide PackPk, KeyTarget, HighOf, LowOf, ExpandA, MatrixShape, KeccakSponge.Shake256;
    var made := MakeKey(p, env, rho, rhop, key);
    k, t1 := made.0, made.1;
    ExpandedRows(p, ExpandA(p, env, rho));
  }

  lemma MadeRow(p: Params, A: Matrix, k: SecretKey, t1: Vec, i: nat)
    requires KeyInputs(p, A, k, t1) && i < p.K()
    ensures |A| == |k.s2| == |t1| == |k.t0| == p.K()
    ensures KeyEquation(A[i], k.s1, k.s2[i], t1[i], k.t0[i]) && InRange(k.t0[i], -4095, 4096)
  {
    hide KeyTarget, HighOf, LowOf, InRange, Unhat, Dot, RowSum, Same, Canon, Plus;
    GeneratedRow(A, k.s1, k.s2, i);
    var n := p.L();
    var d, u := Unhat(Dot(A[i], k.s1, n)), RowSum(A[i], k.s1, n);
    DotIsSum(A[i], k.s1, n);
    CanonSame(d);
    SameTrans(Canon(d), d, u);
    SameRefl(k.s2[i]);
    SamePlus(Canon(d), u, k.s2[i], k.s2[i]);
    CanonUnique(Plus(Canon(d), k.s2[i]), Plus(u, k.s2[i]));
  }

  // ------------------------------------------------------------ the hint section

  /** How many of the first n coefficients are set. */
  function Ones(h: seq<int>, n: nat): nat
    requires n <= |h|
    decreases n
  {
    if n == 0 then 0 else Ones(h, n - 1) + (if h[n - 1] != 0 then 1 else 0)
  }

  /** How many are set in the first i rows. */
  function OnesBefore(h: Hints, i: nat): nat
    requires i <= |h|
    decreases i
  {
    if i == 0 then 0 else OnesBefore(h, i - 1) + Ones(h[i - 1], |h[i - 1]|)
  }

  lemma {:induction false} PositionsCount(h: seq<int>, n: nat)
    requires n <= |h|
    ensures |Positions(h, n)| == Ones(h, n)
    decreases n
  {
    if n > 0 { PositionsCount(h, n - 1); }
  }

  /** A list of lists laid flat: list i stands after the lists before it. */
  lemma {:induction false} FlatAt(ps: seq<seq<int>>, i: nat)
    requires i < |ps|
    ensures |Flat(ps[..i])| + |ps[i]| == |Flat(ps[..i + 1])| <= |Flat(ps)|
    ensures Flat(ps)[|Flat(ps[..i])|..|Flat(ps[..i + 1])|] == ps[i]
    decreases i
  {
    if i == 0 {
      assert ps[..0] == [] && ps[..1] == [ps[0]];
      assert Flat([ps[0]]) == ps[0] + Flat([]);
    } else {
      var t := ps[1..];
      FlatAt(t, i - 1);
      assert ps[..i][1..] == t[..i - 1] && ps[..i + 1][1..] == t[..i];
      FlatShift(ps[0], Flat(t), |Flat(t[..i - 1])|, |Flat(t[..i])|);
    }
  }

  lemma FlatShift(a: seq<int>, b: seq<int>, x: nat, y: nat)
    requires x <= y <= |b|
    ensures (a + b)[|a| + x..|a| + y] == b[x..y]
  {
  }

  lemma {:induction false} CountsAt(ps: seq<seq<int>>, k: nat, i: nat)
    requires i < |ps|
    ensures Counts(ps, k)[i] == k + |Flat(ps[..i + 1])|
    decreases i
  {
    if i == 0 {
      assert ps[..1] == [ps[0]];
      assert Flat([ps[0]]) == ps[0] + Flat([]);
    } else {
      CountsAt(ps[1..], k + |ps[0]|, i - 1);
      assert ps[..i + 1][1..] == ps[1..][..i];
    }
  }

  lemma {:induction false} OnesAreFlat(h: Hints, i: nat)
    requires IsHints(h) && i <= |h|
    ensures |Flat(Lists(h)[..i])| == OnesBefore(h, i)
    decreases i
  {
    hide Positions, IsFlags;
    var ps := Lists(h);
    if i == 0 {
      assert ps[..0] == [];
    } else {
      OnesAreFlat(h, i - 1);
      FlatAt(ps, i - 1);
      RowLength(h, i - 1);
      PositionsCount(h[i - 1], N);
    }
  }

  lemma RowLength(h: Hints, i: nat)
    requires IsHints(h) && i < |h|
    ensures |h[i]| == N && Lists(h)[i] == Positions(h[i], N)
  {
  }

  /** The hint section byte by byte: row i's set positions in increasing order after those of the rows before, their
      running number in byte omega + i, and zeroes between. */
  lemma HintLayout(h: Hints, omega: nat, i: nat, k: nat) returns (s: seq<int>)
    requires IsHints(h) && HintWeight(h) <= omega && i < |h|
    ensures |s| == omega + |h| && HintWeight(h) == OnesBefore(h, |h|)
    ensures OnesBefore(h, i) <= OnesBefore(h, i + 1) <= omega
    ensures s[OnesBefore(h, i)..OnesBefore(h, i + 1)] == Positions(h[i], N)
    ensures s[omega + i] == OnesBefore(h, i + 1) && (OnesBefore(h, |h|) <= k < omega ==> s[k] == 0)
    ensures s == HintBytes(h, omega)
  {
    hide Positions, IsFlags, Flat, Counts, OnesBefore;
    var ps := Lists(h);
    s := HintBytes(h, omega);
    OnesAreFlat(h, i);
    OnesAreFlat(h, i + 1);
    OnesAreFlat(h, |h|);
    assert ps[..|h|] == ps;
    FlatAt(ps, i);
    CountsAt(ps, 0, i);
    RowLength(h, i);
    var f := Flat(ps);
    assert s[..|f|] == f;
    assert s[OnesBefore(h, i)..OnesBefore(h, i + 1)] == f[OnesBefore(h, i)..OnesBefore(h, i + 1)];
  }
}
