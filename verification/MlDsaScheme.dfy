/** FIPS 204 over the ring: key generation, one signing attempt, the rejection loop and
    verification, as functions of the key bytes. The rejection samplers are parameters. */
module MlDsaScheme {
  import opened Options
  import opened ModArith
  import opened MlDsaModulus
  import opened Bits
  import opened Radix
  import opened NttTree
  import opened NegacyclicRing
  import opened MlDsaNtt
  import opened MlDsaRing
  import opened MlDsaParams
  import opened MlDsaRounding
  import opened MlDsaPacking
  import opened MlDsaHints
  import KeccakSponge

  function ZeroPoly(): (p: seq<int>)
    ensures |p| == 256 && forall i | 0 <= i < 256 :: p[i] == 0
  {
    seq(256, _ => 0)
  }

  type Poly = p: seq<int> | |p| == 256 witness ZeroPoly()
  type Vec = seq<Poly>

  /** The rejection samplers: RejNTTPoly of (rho, nonce), RejBoundedPoly of (rho', nonce) and
      SampleInBall of c~. */
  datatype Env = Env(uniform: (seq<byte>, nat) -> Poly, bounded: (seq<byte>, nat) -> Poly, ball: seq<byte> -> Poly) {
    ghost predicate Valid(p: Params) {
      && (forall s: seq<byte>, n: nat :: InRange(uniform(s, n), 0, Q - 1))
      && (forall s: seq<byte>, n: nat :: InRange(bounded(s, n), -(p.Eta() as int), p.Eta()))
      && (forall s: seq<byte> :: InRange(ball(s), -1, 1))
    }
  }

  // ------------------------------------------------------------ vectors

  function AddVec(a: Vec, b: Vec): (r: Vec)
    requires |a| == |b|
    ensures |r| == |a|
  {
    seq(|a|, i requires 0 <= i < |a| => Plus(a[i], b[i]))
  }

  function SubVec(a: Vec, b: Vec): (r: Vec)
    requires |a| == |b|
    ensures |r| == |a|
  {
    seq(|a|, i requires 0 <= i < |a| => Minus(a[i], b[i]))
  }

  /** c times every polynomial of the vector, in the ring. */
  function MulVec(c: Poly, v: Vec): (r: Vec)
    ensures |r| == |v|
  {
    seq(|v|, i requires 0 <= i < |v| => Product(c, v[i]))
  }

  function CentredPoly(a: Poly): (r: Poly)
  {
    seq(256, i requires 0 <= i < 256 => Centred(a[i]))
  }

  function CentredVec(v: Vec): (r: Vec)
    ensures |r| == |v|
  {
    seq(|v|, i requires 0 <= i < |v| => CentredPoly(v[i]))
  }

  /** Every coefficient strictly inside (-bound, bound). */
  predicate Bounded(v: Vec, bound: int) {
    forall i | 0 <= i < |v| :: InRange(v[i], 1 - bound, bound - 1)
  }

  /** The first n terms of a row of the matrix against a vector, all transformed. */
  function Dot(row: Vec, y: Vec, n: nat): (r: Poly)
    requires n <= |row| && n <= |y|
    decreases n
  {
    if n == 0 then ZeroPoly() else Plus(Dot(row, y, n - 1), Pointwise(row[n - 1], Hat(y[n - 1])))
  }

  type Matrix = seq<Vec>

  predicate MatrixShape(A: Matrix, p: Params) {
    |A| == p.K() && forall i | 0 <= i < |A| :: |A[i]| == p.L()
  }

  /** A y, the matrix being given by its transform: section 6.2 of FIPS 204, line 12. */
  function Apply(A: Matrix, y: Vec): (r: Vec)
    requires forall i | 0 <= i < |A| :: |A[i]| == |y|
    ensures |r| == |A|
  {
    seq(|A|, i requires 0 <= i < |A| => Canon(Unhat(Dot(A[i], y, |y|))))
  }

  function ExpandA(p: Params, env: Env, rho: seq<byte>): (A: Matrix)
    ensures MatrixShape(A, p)
  {
    seq(p.K(), i requires 0 <= i < p.K() => ExpandRow(p, env, rho, i))
  }

  function ExpandRow(p: Params, env: Env, rho: seq<byte>, i: nat): (row: Vec)
    ensures |row| == p.L()
  {
    seq<Poly>(p.L(), j requires 0 <= j < p.L() => env.uniform(rho, 256 * i + j))
  }

  function ExpandSmall(env: Env, seed: seq<byte>, from: nat, n: nat): (v: Vec)
    ensures |v| == n
  {
    seq<Poly>(n, i requires 0 <= i < n => env.bounded(seed, from + i))
  }

  function NonceBytes(n: nat): (r: seq<byte>)
    requires n < 65536
    ensures |r| == 2
  {
    [n % 256, n / 256]
  }

  /** y: packed field values of a SHAKE256 stream, mapped into (-gamma1, gamma1]. */
  function MaskPoly(p: Params, seed: seq<byte>, nonce: nat): Poly
    requires nonce < 65536
  {
    LoadPoly(KeccakSponge.Shake256(seed + NonceBytes(nonce), p.ZBytes()), p.Gamma1(), p.ZBits())
  }

  function MaskVec(p: Params, seed: seq<byte>, attempt: nat): (y: Vec)
    requires attempt < ATTEMPTS
    ensures |y| == p.L()
  {
    seq<Poly>(p.L(), i requires 0 <= i < p.L() => MaskPoly(p, seed, p.L() * attempt + i))
  }

  /** The signer gives up after this many candidates. */
  const ATTEMPTS: nat := 1024

  // ------------------------------------------------------------ rounding and hints, vector-wise

  function HighPoly(a: Poly, den: Den): Poly { seq(256, i requires 0 <= i < 256 => HighBits(a[i], den)) }
  function LowPoly(a: Poly, den: Den): Poly { seq(256, i requires 0 <= i < 256 => LowBits(a[i], den)) }

  function HighVec(v: Vec, den: Den): (r: Vec)
    ensures |r| == |v|
  {
    seq(|v|, i requires 0 <= i < |v| => HighPoly(v[i], den))
  }

  function LowVec(v: Vec, den: Den): (r: Vec)
    ensures |r| == |v|
  {
    seq(|v|, i requires 0 <= i < |v| => LowPoly(v[i], den))
  }

  function HintPoly(a0: Poly, a1: Poly, den: Den): (h: Poly)
    ensures IsFlags(h)
  {
    seq(256, i requires 0 <= i < 256 => MakeHint(a0[i], a1[i], den))
  }

  function HintVec(a0: Vec, a1: Vec, den: Den): (h: Vec)
    requires |a0| == |a1|
    ensures |h| == |a0| && IsHints(h)
  {
    seq(|a0|, i requires 0 <= i < |a0| => HintPoly(a0[i], a1[i], den))
  }

  function UseHintPoly(a: Poly, h: Poly, den: Den): Poly
    requires IsFlags(h)
  {
    seq(256, i requires 0 <= i < 256 => UseHint(a[i], h[i], den))
  }

  function UseHintVec(a: Vec, h: Vec, den: Den): (r: Vec)
    requires |a| == |h| && IsHints(h)
    ensures |r| == |a|
  {
    seq(|a|, i requires 0 <= i < |a| => UseHintPoly(a[i], h[i], den))
  }

  // ------------------------------------------------------------ bytes

  function Bytes(s: seq<int>): (r: seq<byte>)
    requires Digits(s, 256)
    ensures r == s
  {
    s
  }

  /** Packed polynomials, one after another. */
  function StoreVec(v: Vec, c: int, w: nat): (r: seq<byte>)
    ensures |r| == |v| * (32 * w)
  {
    if v == [] then [] else Bytes(StorePoly(v[0], c, w)) + StoreVec(v[1..], c, w)
  }

  function LoadVec(s: seq<byte>, n: nat, c: int, w: nat): (v: Vec)
    requires |s| == n * (32 * w)
    ensures |v| == n
  {
    if n == 0 then [] else
      FirstFits(n, 32 * w);
      [LoadPoly(s[..32 * w], c, w)] + LoadVec(s[32 * w..], n - 1, c, w)
  }

  lemma FirstFits(n: nat, s: nat)
    requires 0 < n
    ensures n * s == s + (n - 1) * s && s <= n * s
  {
    assert 0 <= (n - 1) * s;
  }

  /** Fields stored without an offset. */
  function PlainVec(v: Vec, w: nat): (r: seq<byte>)
    ensures |r| == |v| * (32 * w)
  {
    if v == [] then [] else Bytes(PackBits(v[0], w, 32 * w)) + PlainVec(v[1..], w)
  }

  function ReadPlain(s: seq<byte>, n: nat, w: nat): (v: Vec)
    requires |s| == n * (32 * w)
    ensures |v| == n
  {
    if n == 0 then [] else
      FirstFits(n, 32 * w);
      [UnpackBits(s[..32 * w], w, 256)] + ReadPlain(s[32 * w..], n - 1, w)
  }

  lemma {:induction false} LoadStoreVec(v: Vec, c: int, w: nat)
    requires forall i | 0 <= i < |v| :: InRange(v[i], c - Pow2(w) + 1, c)
    ensures LoadVec(StoreVec(v, c, w), |v|, c, w) == v
  {
    if v != [] {
      LoadStore(v[0], c, w);
      LoadStoreVec(v[1..], c, w);
      var a, b := StorePoly(v[0], c, w), StoreVec(v[1..], c, w);
      hide StorePoly, LoadPoly;
      assert StoreVec(v, c, w) == a + b;
      assert (a + b)[..32 * w] == a && (a + b)[32 * w..] == b;
    }
  }

  lemma {:induction false} ReadPlainVec(v: Vec, w: nat)
    requires forall i | 0 <= i < |v| :: Digits(v[i], Pow2(w))
    ensures ReadPlain(PlainVec(v, w), |v|, w) == v
  {
    if v != [] {
      UnpackPack(v[0], w, 32 * w);
      ReadPlainVec(v[1..], w);
      var a, b := PackBits(v[0], w, 32 * w), PlainVec(v[1..], w);
      hide PackBits, UnpackBits;
      assert PlainVec(v, w) == a + b;
      assert (a + b)[..32 * w] == a && (a + b)[32 * w..] == b;
    }
  }

  lemma {:induction false} StoreLoadVec(s: seq<byte>, n: nat, c: int, w: nat)
    requires |s| == n * (32 * w)
    ensures StoreVec(LoadVec(s, n, c, w), c, w) == s
    ensures forall i | 0 <= i < n :: InRange(LoadVec(s, n, c, w)[i], c - Pow2(w) + 1, c)
    decreases n
  {
    hide StorePoly, LoadPoly, InRange, StoreVec, LoadVec, Pow2;
    if n == 0 {
      NoPolys(s, c, w);
    } else {
      FirstFits(n, 32 * w);
      var a, b := s[..32 * w], s[32 * w..];
      LoadFirst(s, n, c, w);
      StoreLoad(a, c, w);
      StoreLoadVec(b, n - 1, c, w);
      var x, y := LoadPoly(a, c, w), LoadVec(b, n - 1, c, w);
      StoreFirst(x, y, c, w);
      FirstInRange(x, y, c - Pow2(w) + 1, c);
      assert s == a + b;
    }
  }

  lemma NoPolys(s: seq<byte>, c: int, w: nat)
    requires |s| == 0 * (32 * w)
    ensures s == [] && LoadVec(s, 0, c, w) == [] && StoreVec([], c, w) == []
  {
    assert 0 * (32 * w) == 0;
  }

  lemma FirstInRange(x: Poly, y: Vec, lo: int, hi: int)
    requires InRange(x, lo, hi) && forall i | 0 <= i < |y| :: InRange(y[i], lo, hi)
    ensures forall i | 0 <= i < |y| + 1 :: InRange(([x] + y)[i], lo, hi)
  {
    hide InRange;
  }

  lemma LoadFirst(s: seq<byte>, n: nat, c: int, w: nat)
    requires 0 < n && |s| == n * (32 * w)
    ensures 32 * w <= |s| && |s[32 * w..]| == (n - 1) * (32 * w)
    ensures LoadVec(s, n, c, w) == [LoadPoly(s[..32 * w], c, w)] + LoadVec(s[32 * w..], n - 1, c, w)
  {
    hide LoadPoly;
    FirstFits(n, 32 * w);
  }

  lemma StoreFirst(a: Poly, v: Vec, c: int, w: nat)
    requires InRange(a, c - Pow2(w) + 1, c) && forall i | 0 <= i < |v| :: InRange(v[i], c - Pow2(w) + 1, c)
    ensures StoreVec([a] + v, c, w) == StorePoly(a, c, w) + StoreVec(v, c, w)
  {
    hide StorePoly, InRange;
    assert ([a] + v)[1..] == v;
  }

  // ------------------------------------------------------------ keys

  datatype SecretKey = SecretKey(rho: seq<byte>, key: seq<byte>, tr: seq<byte>, s1: Vec, s2: Vec, t0: Vec) {
    predicate Shape(p: Params) {
      |rho| == 32 && |key| == 32 && |tr| == 64 && |s1| == p.L() && |s2| == p.K() && |t0| == p.K()
    }
  }

  function PackSk(p: Params, k: SecretKey): (s: seq<byte>)
    requires k.Shape(p)
    ensures |s| == p.SkBytes()
  {
    SumTimes(p.L(), p.K(), p.EtaBytes());
    var a, b := StoreVec(k.s1, p.Eta(), p.EtaBits()), StoreVec(k.s2, p.Eta(), p.EtaBits());
    k.rho + k.key + k.tr + a + b + StoreVec(k.t0, 4096, 13)
  }

  lemma SumTimes(m: int, n: int, s: int)
    ensures (m + n) * s == m * s + n * s
  {
  }

  function UnpackSk(p: Params, s: seq<byte>): (k: SecretKey)
    requires |s| == p.SkBytes()
    ensures k.Shape(p)
  {
    var a := 128 + p.L() * p.EtaBytes();
    var b := a + p.K() * p.EtaBytes();
    SecretKey(s[..32], s[32..64], s[64..128], LoadVec(s[128..a], p.L(), p.Eta(), p.EtaBits()),
      LoadVec(s[a..b], p.K(), p.Eta(), p.EtaBits()), LoadVec(s[b..], p.K(), 4096, 13))
  }

  function PackPk(p: Params, rho: seq<byte>, t1: Vec): (s: seq<byte>)
    requires |rho| == 32 && |t1| == p.K()
    ensures |s| == p.PkBytes()
  {
    rho + PlainVec(t1, 10)
  }

  function UnpackPk(p: Params, s: seq<byte>): (r: (seq<byte>, Vec))
    requires |s| == p.PkBytes()
    ensures |r.0| == 32 && |r.1| == p.K()
  {
    (s[..32], ReadPlain(s[32..], p.K(), 10))
  }

  function RoundHigh(t: Poly): Poly { seq(256, i requires 0 <= i < 256 => Power2Round(t[i]).0) }
  function RoundLow(t: Poly): Poly { seq(256, i requires 0 <= i < 256 => Power2Round(t[i]).1) }

  /** t = A s1 + s2, canonical. */
  function KeyTarget(A: Matrix, s1: Vec, s2: Vec): (t: Vec)
    requires (forall i | 0 <= i < |A| :: |A[i]| == |s1|) && |s2| == |A|
    ensures |t| == |A|
  {
    AddCanon(Apply(A, s1), s2)
  }

  function AddCanon(a: Vec, b: Vec): (r: Vec)
    requires |a| == |b|
    ensures |r| == |a|
  {
    seq<Poly>(|a|, i requires 0 <= i < |a| => Canon(Plus(a[i], b[i])))
  }

  function HighOf(t: Vec): (r: Vec) ensures |r| == |t| { seq(|t|, i requires 0 <= i < |t| => RoundHigh(t[i])) }
  function LowOf(t: Vec): (r: Vec) ensures |r| == |t| { seq(|t|, i requires 0 <= i < |t| => RoundLow(t[i])) }

  /** The secret key and t1 from the expanded seed. */
  function MakeKey(p: Params, env: Env, rho: seq<byte>, rhop: seq<byte>, key: seq<byte>): (r: (SecretKey, Vec))
    requires |rho| == 32 && |key| == 32
    ensures r.0.Shape(p) && r.0.rho == rho && |r.1| == p.K()
  {
    var s1 := ExpandSmall(env, rhop, 0, p.L());
    var s2 := ExpandSmall(env, rhop, p.L(), p.K());
    var t := KeyTarget(ExpandA(p, env, rho), s1, s2);
    var tr := KeccakSponge.Shake256(PackPk(p, rho, HighOf(t)), 64);
    (SecretKey(rho, key, tr, s1, s2, LowOf(t)), HighOf(t))
  }

  /** ML-DSA.KeyGen_internal: section 6.1 of FIPS 204. */
  function KeyGen(p: Params, env: Env, seed: seq<byte>): (r: (seq<byte>, seq<byte>))
    requires |seed| == 32
    ensures |r.0| == p.PkBytes() && |r.1| == p.SkBytes()
  {
    var e := KeccakSponge.Shake256(seed + [p.K() as byte, p.L() as byte], 128);
    var (k, t1) := MakeKey(p, env, e[..32], e[32..96], e[96..]);
    (PackPk(p, e[..32], t1), PackSk(p, k))
  }

  // ------------------------------------------------------------ signing

  /** Everything one candidate computes. */
  datatype Attempt = Attempt(w1: Vec, w1Bytes: seq<byte>, ctilde: seq<byte>, z: Vec, r: Vec, u: Vec, h: Vec) {
    predicate Shape(p: Params) {
      |w1| == p.K() && |w1Bytes| == p.K() * p.W1Bytes() && |ctilde| == p.CTilde() && |z| == p.L() && |h| == p.K() &&
        IsHints(h)
    }
    /** The four rejection tests. */
    predicate Accepted(p: Params) requires IsHints(h) {
      Bounded(z, p.Gamma1() - p.Beta()) && Bounded(r, Gamma2(p.GammaDen()) - p.Beta()) &&
        Bounded(u, Gamma2(p.GammaDen()))
      && HintWeight(h) <= p.Omega()
    }
  }

  function TryOnce(p: Params, env: Env, k: SecretKey, A: Matrix, mu: seq<byte>, seed: seq<byte>,
      attempt: nat): (t: Attempt)
    requires k.Shape(p) && MatrixShape(A, p) && attempt < ATTEMPTS
    ensures t.Shape(p)
  {
    var y := MaskVec(p, seed, attempt);
    Respond(p, env, k, mu, y, Apply(A, y))
  }

  /** From the commitment w on. */
  function Respond(p: Params, env: Env, k: SecretKey, mu: seq<byte>, y: Vec, w: Vec): (t: Attempt)
    requires k.Shape(p) && |y| == p.L() && |w| == p.K()
    ensures t.Shape(p)
  {
    var den := p.GammaDen();
    var w1 := HighVec(w, den);
    var w1b := PlainVec(w1, p.W1Bits());
    var ct := KeccakSponge.Shake256(mu + w1b, p.CTilde());
    var c := env.ball(ct);
    var r := CentredVec(SubVec(LowVec(w, den), MulVec(c, k.s2)));
    var u := CentredVec(MulVec(c, k.t0));
    Attempt(w1, w1b, ct, CentredVec(AddVec(y, MulVec(c, k.s1))), r, u, HintVec(AddVec(r, u), w1, den))
  }

  function SigEncode(p: Params, ct: seq<byte>, z: Vec, h: Vec): (s: seq<byte>)
    requires |ct| == p.CTilde() && |z| == p.L() && |h| == p.K() && IsHints(h) && HintWeight(h) <= p.Omega()
    ensures |s| == p.SigBytes()
  {
    HintBytesRange(h, p.Omega());
    ct + StoreVec(z, p.Gamma1(), p.ZBits()) + Bytes(HintBytes(h, p.Omega()))
  }

  datatype Signature = Signature(ctilde: seq<byte>, z: Vec, h: Vec)

  function SigDecode(p: Params, s: seq<byte>): (r: Option<Signature>)
    requires |s| == p.SigBytes()
    ensures r.Some? ==> |r.value.ctilde| == p.CTilde() && |r.value.z| == p.L()
    ensures r.Some? ==> |r.value.h| == p.K() && IsHints(r.value.h)
  {
    var a := p.CTilde() + p.L() * p.ZBytes();
    var h := HintRead(s[a..], p.Omega());
    if h.None? then None
    else Some(Signature(s[..p.CTilde()], LoadVec(s[p.CTilde()..a], p.L(), p.Gamma1(), p.ZBits()), h.value))
  }

  /** x written over the front of buf. */
  function Overlay(buf: seq<byte>, x: seq<byte>): (r: seq<byte>)
    requires |x| <= |buf|
    ensures |r| == |buf|
  {
    x + buf[|x|..]
  }

  /** What a candidate leaves in the output buffer: packed w1, then c~ over its front. */
  function Scratch(p: Params, buf: seq<byte>, t: Attempt): (r: seq<byte>)
    requires |buf| == p.SigBytes() && t.Shape(p)
    ensures |r| == |buf|
  {
    Sizes(p);
    Overlay(Overlay(buf, t.w1Bytes), t.ctilde)
  }

  /** The rejection loop from one attempt on: return code and output buffer. */
  function SignLoop(p: Params, env: Env, k: SecretKey, A: Matrix, mu: seq<byte>, seed: seq<byte>,
      attempt: nat, buf: seq<byte>): (r: (int, seq<byte>))
    requires k.Shape(p) && MatrixShape(A, p) && attempt <= ATTEMPTS && |buf| == p.SigBytes()
    ensures |r.1| == |buf|
    decreases ATTEMPTS - attempt
  {
    if attempt == ATTEMPTS then (-1, buf)
    else
      var t := TryOnce(p, env, k, A, mu, seed, attempt);
      if t.Accepted(p) then (0, SigEncode(p, t.ctilde, t.z, t.h))
      else SignLoop(p, env, k, A, mu, seed, attempt + 1, Scratch(p, buf, t))
  }

  /** ML-DSA.Sign_internal below mu: section 6.2 of FIPS 204, with the code's attempt limit
      and its check of the key's range. */
  function SignMu(p: Params, env: Env, mu: seq<byte>, rnd: seq<byte>, sk: seq<byte>,
      buf: seq<byte>): (r: (int, seq<byte>))
    requires |sk| == p.SkBytes() && |buf| == p.SigBytes()
    ensures |r.1| == |buf|
  {
    var k := UnpackSk(p, sk);
    if !Bounded(k.s1, p.Eta() + 1) || !Bounded(k.s2, p.Eta() + 1) then (-1, buf)
    else
      SignLoop(p, env, k, ExpandA(p, env, k.rho), mu, KeccakSponge.Shake256(k.key + rnd + mu, 64), 0, buf)
  }

  // ------------------------------------------------------------ verifying

  /** 2^13 t1. */
  function Lifted(t1: Poly): Poly { Scale(8192, t1) }

  /** A z - c t1 2^13, canonical, row by row. */
  function Recomputed(A: Matrix, z: Vec, c: Poly, t1: Vec): (r: Vec)
    requires (forall i | 0 <= i < |A| :: |A[i]| == |z|) && |t1| == |A|
    ensures |r| == |A|
  {
    seq(|A|, i requires 0 <= i < |A| => RecomputedRow(A[i], z, c, t1[i]))
  }

  function RecomputedRow(row: Vec, z: Vec, c: Poly, t1: Poly): (r: Poly)
    requires |row| == |z|
  {
    Canon(Unhat(Minus(Dot(row, z, |z|), Pointwise(Hat(c), Hat(Lifted(t1))))))
  }

  /** ML-DSA.Verify_internal below mu: section 6.3 of FIPS 204; 0 accepts, -1 rejects. */
  function VerifyMu(p: Params, env: Env, sig: seq<byte>, mu: seq<byte>, pk: seq<byte>): int
    requires |sig| == p.SigBytes() && |pk| == p.PkBytes()
  {
    var (rho, t1) := UnpackPk(p, pk);
    var s := SigDecode(p, sig);
    if s.None? || !Bounded(s.value.z, p.Gamma1() - p.Beta()) then -1
    else
      var c := env.ball(s.value.ctilde);
      var w := Recomputed(ExpandA(p, env, rho), s.value.z, c, t1);
      var w1 := UseHintVec(w, s.value.h, p.GammaDen());
      var ct := KeccakSponge.Shake256(mu + PlainVec(w1, p.W1Bits()), p.CTilde());
      if ct == s.value.ctilde then 0 else -1
  }
}
