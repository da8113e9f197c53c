/** FIPS 203 over the ring: K-PKE encryption and decryption and ML-KEM decapsulation, as
    functions of the key and ciphertext bytes. The matrix sampler is a parameter. */
module MlKemScheme {
  import opened ModArith
  import opened Bits
  import opened Radix
  import opened BitCursor
  import opened NttTree
  import opened MlKemArith
  import opened MlKemNtt
  import opened MlKemRing
  import opened MlKemCompress
  import KeccakSponge

  function ZeroK(): (p: seq<int>)
    ensures |p| == 256 && forall i | 0 <= i < 256 :: p[i] == 0
  {
    seq(256, _ => 0)
  }

  type KPoly = p: seq<int> | |p| == 256 witness ZeroK()
  type KVec = seq<KPoly>

  datatype KemParams = Kem512 | Kem768 | Kem1024 {
    function K(): (n: nat) ensures 2 <= n <= 4 { match this case Kem512 => 2 case Kem768 => 3 case Kem1024 => 4 }
    function Eta1(): (n: nat) ensures n == 2 || n == 3 { if Kem512? then 3 else 2 }
    function Du(): Width { if Kem1024? then 11 else 10 }
    function Dv(): Width { if Kem1024? then 5 else 4 }
    function UBytes(): nat { 32 * Du() }
    function EkBytes(): nat { K() * 384 + 32 }
    function DkBytes(): nat { K() * 384 + EkBytes() + 64 }
    function CtBytes(): nat { K() * UBytes() + 32 * Dv() }
  }

  /** SampleNTT of (rho, i, j). */
  datatype KemEnv = KemEnv(uniform: (seq<byte>, nat, nat) -> KPoly) {
    ghost predicate Valid() {
      forall s: seq<byte>, i: nat, j: nat :: InK(uniform(s, i, j), 0, KQ - 1)
    }
  }

  predicate InK(a: seq<int>, lo: int, hi: int) { forall i | 0 <= i < |a| :: lo <= a[i] <= hi }

  function Sha3_512(m: seq<byte>): (h: seq<byte>) ensures |h| == 64 { KeccakSponge.Sponge(m, 72, 0x06, 64) }
  function Shake(m: seq<byte>, len: nat): (h: seq<byte>) ensures |h| == len { KeccakSponge.Sponge(m, 136, 0x1f, len) }

  // ------------------------------------------------------------ noise

  /** How many of the n bits from pos on are set. */
  function OnesIn(buf: seq<byte>, pos: nat, n: nat): (c: nat)
    requires n > 0 ==> (pos + n - 1) / 8 < |buf|
    ensures c <= n
    decreases n
  {
    if n == 0 then 0 else OnesIn(buf, pos, n - 1) + B2I(StreamBit(buf, pos + n - 1))
  }

  lemma NoiseFits(eta: nat, i: nat)
    requires eta == 2 || eta == 3
    requires i < 256
    ensures (2 * eta * i + 2 * eta - 1) / 8 < 64 * eta
  {
    if eta == 2 { } else { }
  }

  /** SamplePolyCBD_eta: the difference of two eta-bit counts. */
  function Cbd(buf: seq<byte>, eta: nat): (p: KPoly)
    requires (eta == 2 || eta == 3) && |buf| == 64 * eta
    ensures InK(p, -(eta as int), eta)
  {
    seq(256, i requires 0 <= i < 256 => CbdAt(buf, eta, i))
  }

  function CbdAt(buf: seq<byte>, eta: nat, i: nat): (c: int)
    requires (eta == 2 || eta == 3) && |buf| == 64 * eta && i < 256
    ensures -(eta as int) <= c <= eta
  {
    NoiseFits(eta, i);
    OnesIn(buf, 2 * eta * i, eta) - OnesIn(buf, 2 * eta * i + eta, eta)
  }

  /** PRF_eta and SamplePolyCBD. */
  function Noise(sigma: seq<byte>, nonce: nat, eta: nat): KPoly
    requires (eta == 2 || eta == 3) && nonce < 256
  {
    Cbd(Shake(sigma + [nonce], 64 * eta), eta)
  }

  function NoiseVec(sigma: seq<byte>, from: nat, n: nat, eta: nat): (v: KVec)
    requires (eta == 2 || eta == 3) && from + n <= 256
    ensures |v| == n
  {
    seq<KPoly>(n, i requires 0 <= i < n => Noise(sigma, from + i, eta))
  }

  // ------------------------------------------------------------ the ring

  /** The first n terms of an inner product on transforms; a is given transformed. */
  function KDot(a: KVec, x: KVec, n: nat): (r: KPoly)
    requires n <= |a| && n <= |x|
    decreases n
  {
    if n == 0 then ZeroK() else Plus(KDot(a, x, n - 1), Base(a[n - 1], KHat(x[n - 1])))
  }

  /** a . x back in the ring. */
  function Inner(a: KVec, x: KVec): (r: KPoly)
    requires |a| == |x|
  {
    KUnhat(KDot(a, x, |x|))
  }

  function Negated(a: KPoly): (r: KPoly)
    ensures forall i | 0 <= i < 256 :: r[i] == -a[i]
  {
    seq(256, i requires 0 <= i < 256 => -a[i])
  }

  function CompressPoly(a: KPoly, d: Width): KPoly { seq(256, i requires 0 <= i < 256 => Compress(a[i], d)) }
  function DecompressPoly(c: KPoly, d: Width): KPoly { seq(256, i requires 0 <= i < 256 => Decompress(c[i], d)) }

  /** The message's 256 bits, as coefficients 0 and (q + 1) / 2. */
  function FromMsg(m: seq<byte>): KPoly
    requires |m| == 32
  {
    seq(256, i requires 0 <= i < 256 => if StreamBit(m, i) then (KQ + 1) / 2 else 0)
  }

  // ------------------------------------------------------------ bytes

  function Block(s: seq<byte>, i: nat, n: nat): (r: seq<byte>)
    requires (i + 1) * n <= |s|
    ensures |r| == n
  {
    BlockEnds(i, n);
    s[i * n..(i + 1) * n]
  }

  lemma BlockEnds(i: nat, n: nat)
    ensures i * n + n == (i + 1) * n && 0 <= i * n
  {
  }

  lemma BlockIn(i: nat, k: nat, n: nat)
    requires i < k
    ensures (i + 1) * n <= k * n
  {
    MulMono(i + 1, k, n);
  }

  /** ByteDecode_12, coefficients as they stand. */
  function Decode12(s: seq<byte>, k: nat): (v: KVec)
    requires |s| == k * 384
    ensures |v| == k
  {
    seq<KPoly>(k, i requires 0 <= i < k => (BlockIn(i, k, 384); UnpackBits(Block(s, i, 384), 12, 256)))
  }

  /** FIPS 203's modulus check on an encapsulation key. */
  predicate CanonicalKey(t: KVec) { forall i | 0 <= i < |t| :: InK(t[i], 0, KQ - 1) }

  // ------------------------------------------------------------ K-PKE

  /** Row i of the transposed matrix. */
  function MatrixRow(p: KemParams, env: KemEnv, rho: seq<byte>, i: nat): (row: KVec)
    ensures |row| == p.K()
  {
    seq<KPoly>(p.K(), j requires 0 <= j < p.K() => env.uniform(rho, i, j))
  }

  function EncryptRow(row: KVec, r: KVec, e: KPoly): KPoly
    requires |row| == |r|
  {
    KCanon(Plus(Inner(row, r), e))
  }

  /** The two halves of a ciphertext before compression. */
  function EncryptU(p: KemParams, env: KemEnv, rho: seq<byte>, r: KVec, e1: KVec): (u: KVec)
    requires |r| == |e1| == p.K()
    ensures |u| == p.K()
  {
    seq<KPoly>(p.K(), i requires 0 <= i < p.K() => EncryptRow(MatrixRow(p, env, rho, i), r, e1[i]))
  }

  function EncryptV(t: KVec, r: KVec, e2: KPoly, m: seq<byte>): KPoly
    requires |t| == |r| && |m| == 32
  {
    KCanon(Plus(Plus(Inner(t, r), e2), FromMsg(m)))
  }

  /** Packed compressed polynomials, one after another. */
  function EncodeU(u: KVec, d: Width): (s: seq<byte>)
    ensures |s| == |u| * (32 * d)
  {
    if u == [] then [] else
      BlockEnds(|u| - 1, 32 * d);
      EncodeV(u[0], d) + EncodeU(u[1..], d)
  }

  function EncodeV(v: KPoly, d: Width): (s: seq<byte>)
    ensures |s| == 32 * d
  {
    PackBits(CompressPoly(v, d), d, 32 * d)
  }

  function EkT(p: KemParams, ek: seq<byte>): (t: KVec)
    requires |ek| == p.EkBytes()
    ensures |t| == p.K()
  {
    Decode12(ek[..p.K() * 384], p.K())
  }

  function EkRho(p: KemParams, ek: seq<byte>): (rho: seq<byte>)
    requires |ek| == p.EkBytes()
    ensures |rho| == 32
  {
    ek[p.K() * 384..]
  }

  function CtEncode(p: KemParams, u: KVec, v: KPoly): (ct: seq<byte>)
    requires |u| == p.K()
    ensures |ct| == p.CtBytes()
  {
    EncodeU(u, p.Du()) + EncodeV(v, p.Dv())
  }

  /** The noise of one encryption: r, e1 and e2. */
  datatype Coins = Coins(r: KVec, e1: KVec, e2: KPoly) {
    predicate Shape(p: KemParams) { |r| == p.K() && |e1| == p.K() }
  }

  function CoinsOf(p: KemParams, coins: seq<byte>): (c: Coins)
    ensures c.Shape(p)
  {
    Coins(NoiseVec(coins, 0, p.K(), p.Eta1()), NoiseVec(coins, p.K(), p.K(), 2), Noise(coins, 2 * p.K(), 2))
  }

  /** K-PKE.Encrypt: the ciphertext bytes. */
  function Encrypt(p: KemParams, env: KemEnv, ek: seq<byte>, m: seq<byte>, c: Coins): (ct: seq<byte>)
    requires |ek| == p.EkBytes() && |m| == 32 && c.Shape(p)
    ensures |ct| == p.CtBytes()
  {
    CtEncode(p, EncryptU(p, env, EkRho(p, ek), c.r, c.e1), EncryptV(EkT(p, ek), c.r, c.e2, m))
  }

  /** The ciphertext's fields, decompressed. */
  function CtFields(s: seq<byte>, i: nat, d: Width): (f: KPoly)
    requires (i + 1) * (32 * d) <= |s|
    ensures forall j | 0 <= j < 256 :: 0 <= f[j] < Levels(d)
  {
    UnpackBits(Block(s, i, 32 * d), d, 256)
  }

  function CtU(p: KemParams, ct: seq<byte>): (u: KVec)
    requires |ct| == p.CtBytes()
    ensures |u| == p.K()
  {
    seq<KPoly>(p.K(), i requires 0 <= i < p.K() => (BlockIn(i, p.K(), p.UBytes()); CtFields(ct, i, p.Du())))
  }

  function CtV(p: KemParams, ct: seq<byte>): (v: KPoly)
    requires |ct| == p.CtBytes()
  {
    UnpackBits(ct[p.K() * p.UBytes()..], p.Dv(), 256)
  }

  /** v - s . u, canonical: what decryption rounds. */
  function Residual(p: KemParams, dk: seq<byte>, ct: seq<byte>): KPoly
    requires |dk| == p.K() * 384 && |ct| == p.CtBytes()
  {
    var c := CtU(p, ct);
    var u := seq<KPoly>(p.K(), i requires 0 <= i < p.K() => DecompressPoly(c[i], p.Du()));
    KCanon(Plus(DecompressPoly(CtV(p, ct), p.Dv()), Negated(Inner(Decode12(dk, p.K()), u))))
  }

  /** K-PKE.Decrypt: one bit a coefficient. */
  function Decrypt(p: KemParams, dk: seq<byte>, ct: seq<byte>): (m: seq<byte>)
    requires |dk| == p.K() * 384 && |ct| == p.CtBytes()
    ensures |m| == 32
  {
    EncodeV(Residual(p, dk, ct), 1)
  }

  // ------------------------------------------------------------ ML-KEM

  /** The parts of a decapsulation key: secret vector, encapsulation key, its hash, z. */
  function DkSecret(p: KemParams, dk: seq<byte>): (s: seq<byte>)
    requires |dk| == p.DkBytes()
    ensures |s| == p.K() * 384
  {
    dk[..p.K() * 384]
  }

  function DkEk(p: KemParams, dk: seq<byte>): (s: seq<byte>)
    requires |dk| == p.DkBytes()
    ensures |s| == p.EkBytes()
  {
    dk[p.K() * 384..p.K() * 384 + p.EkBytes()]
  }

  function DkHash(p: KemParams, dk: seq<byte>): (s: seq<byte>)
    requires |dk| == p.DkBytes()
    ensures |s| == 32
  {
    dk[p.K() * 384 + p.EkBytes()..p.K() * 384 + p.EkBytes() + 32]
  }

  function DkZ(p: KemParams, dk: seq<byte>): (s: seq<byte>)
    requires |dk| == p.DkBytes()
    ensures |s| == 32
  {
    dk[p.K() * 384 + p.EkBytes() + 32..]
  }

  /** The key is canonical and the message re-encrypts to the ciphertext. */
  predicate Reencrypts(p: KemParams, env: KemEnv, ek: seq<byte>, m: seq<byte>, coins: seq<byte>, ct: seq<byte>)
    requires |ek| == p.EkBytes() && |m| == 32
  {
    CanonicalKey(EkT(p, ek)) && Encrypt(p, env, ek, m, CoinsOf(p, coins)) == ct
  }

  /** K' when the re-encryption matches, the implicit-rejection key otherwise. */
  function Decide(p: KemParams, env: KemEnv, ek: seq<byte>, m: seq<byte>, g: seq<byte>, kbar: seq<byte>,
      ct: seq<byte>): (k: seq<byte>)
    requires |ek| == p.EkBytes() && |m| == 32 && |g| == 64 && |kbar| == 32
    ensures |k| == 32
  {
    if Reencrypts(p, env, ek, m, g[32..], ct) then g[..32] else kbar
  }

  /** (K', r) = G(m || h). */
  function Derived(p: KemParams, dk: seq<byte>, m: seq<byte>): (g: seq<byte>)
    requires |dk| == p.DkBytes()
    ensures |g| == 64
  {
    Sha3_512(m + DkHash(p, dk))
  }

  /** K-bar = J(z || c). */
  function RejectKey(p: KemParams, dk: seq<byte>, ct: seq<byte>): (k: seq<byte>)
    requires |dk| == p.DkBytes()
    ensures |k| == 32
  {
    Shake(DkZ(p, dk) + ct, 32)
  }

  /** ML-KEM.Decaps_internal: section 6.3 of FIPS 203. */
  function Decaps(p: KemParams, env: KemEnv, dk: seq<byte>, ct: seq<byte>): (k: seq<byte>)
    requires |dk| == p.DkBytes() && |ct| == p.CtBytes()
    ensures |k| == 32
  {
    var m := Decrypt(p, DkSecret(p, dk), ct);
    Decide(p, env, DkEk(p, dk), m, Derived(p, dk, m), RejectKey(p, dk, ct), ct)
  }
}
