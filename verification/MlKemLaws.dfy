/** ML-KEM in the ring, with no transform left, and its hashes written out: what an encapsulation holds, where the
    noise comes from, what a key is, and what decapsulation returns on every ciphertext. */
module MlKemLaws {
  import opened Options
  import opened ModArith
  import opened Bits
  import opened Radix
  import opened NttTree
  import opened NegacyclicRing
  import opened MlKemArith
  import opened MlKemNtt
  import opened MlKemRing
  import opened MlKemCompress
  import opened MlKemScheme
  import opened MlKemKeys
  import opened MlKemCorrect
  import opened MlKemRoundTrip
  import KeccakSponge

  // ------------------------------------------------------------ decapsulation

  /** Decapsulation under a generated key encapsulates what it decrypted: the key if that gives the ciphertext back,
      SHAKE256(z || ct) otherwise. */
  lemma DecapsIs(p: KemParams, env: KemEnv, k: KeySeed, z: seq<byte>, dk: seq<byte>, ek: seq<byte>, ct: seq<byte>)
    requires k.Shape(p) && |z| == 32 && dk == DecapsKey(p, env, k, z) && ek == EncapsKey(p, env, k)
    requires |ct| == p.CtBytes()
    ensures var again := Encapsulation(p, env, ek, Decrypt(p, DkSecret(p, dk), ct));
      again.Some?
      && Decaps(p, env, dk, ct) == if again.value.0 == ct then again.value.1 else KeccakSponge.Shake256(z + ct, 32)
  {
    hide EncapsKey, DecapsKey, Encapsulation, Decrypt, Derivation, DkSecret, DkEk, DkHash, DkZ, Sha3_256, Sha3_512,
      SecretVec, Encode12, Encrypt, CoinsOf, CanonicalKey, EkT, EkRho, PublicVec, Decode12, KeccakSponge.Sponge;
    var m := Decrypt(p, DkSecret(p, dk), ct);
    KeyParts(p, env, k, z);
    LastPart(p, env, k, z);
    Encapsulates(p, env, k, m);
    KeyReadBack(p, env, k);
    HonestDerived(p, env, k, z, m);
  }

  lemma LastPart(p: KemParams, env: KemEnv, k: KeySeed, z: seq<byte>)
    requires k.Shape(p) && |z| == 32
    ensures DkZ(p, DecapsKey(p, env, k, z)) == z
  {
    hide EncapsKey, Encode12, Sha3_256, SecretVec;
  }

  /** A key other than the rejection key was encapsulated in this ciphertext. */
  lemma RejectsOtherwise(p: KemParams, env: KemEnv, k: KeySeed, z: seq<byte>, ct: seq<byte>)
    returns (dk: seq<byte>, ek: seq<byte>, m: seq<byte>, shared: seq<byte>)
    requires k.Shape(p) && |z| == 32 && |ct| == p.CtBytes()
    ensures |ek| == p.EkBytes() && |m| == 32 && |dk| == p.DkBytes()
    ensures shared != KeccakSponge.Shake256(z + ct, 32) ==> Encapsulation(p, env, ek, m) == Some((ct, shared))
    ensures dk == DecapsKey(p, env, k, z) && ek == EncapsKey(p, env, k)
    ensures m == Decrypt(p, DkSecret(p, dk), ct) && shared == Decaps(p, env, dk, ct)
  {
    hide Decaps, Encapsulation, Decrypt, DecapsKey, EncapsKey, KeccakSponge.Shake256;
    dk, ek := DecapsKey(p, env, k, z), EncapsKey(p, env, k);
    m, shared := Decrypt(p, DkSecret(p, dk), ct), Decaps(p, env, dk, ct);
    DecapsIs(p, env, k, z, dk, ek, ct);
  }

  // ------------------------------------------------------------ rows in the ring

  /** a_0 x_0 + ... + a_(n-1) x_(n-1), the a_j being ring elements whose transforms are given. */
  function KRowSum(row: KVec, x: KVec, n: nat): (r: KPoly)
    requires n <= |row| && n <= |x|
    decreases n
  {
    if n == 0 then ZeroK() else Plus(KRowSum(row, x, n - 1), Product(KUnhat(row[n - 1]), x[n - 1]))
  }

  lemma EntryProduct(a: KPoly, x: KPoly)
    ensures KSame(KUnhat(Base(a, KHat(x))), Product(KUnhat(a), x))
  {
    hide KHat, KUnhat, KSame, Product, Base;
    KHatUnhat(a);
    KSameSym(KHat(KUnhat(a)), a);
    KSameRefl(KHat(x));
    BaseSame(a, KHat(KUnhat(a)), KHat(x), KHat(x));
    KUnhatSame(Base(a, KHat(x)), Base(KHat(KUnhat(a)), KHat(x)));
    KProductByTransform(KUnhat(a), x);
    KSameTrans(KUnhat(Base(a, KHat(x))), KUnhat(Base(KHat(KUnhat(a)), KHat(x))), Product(KUnhat(a), x));
  }

  lemma {:induction false} KDotIsSum(row: KVec, x: KVec, n: nat)
    requires n <= |row| && n <= |x|
    ensures KSame(KUnhat(KDot(row, x, n)), KRowSum(row, x, n))
    decreases n
  {
    hide Base, KHat, KUnhat, Plus, KSame, Product;
    if n == 0 {
      UnhatOfZero();
      KSameRefl(ZeroK());
    } else {
      KDotIsSum(row, x, n - 1);
      var d, b := KDot(row, x, n - 1), Base(row[n - 1], KHat(x[n - 1]));
      KUnhatPlus(d, b);
      EntryProduct(row[n - 1], x[n - 1]);
      KSamePlus(KUnhat(d), KRowSum(row, x, n - 1), KUnhat(b), Product(KUnhat(row[n - 1]), x[n - 1]));
    }
  }

  lemma InnerPlus(row: KVec, x: KVec, e: KPoly)
    requires |row| == |x|
    ensures KCanon(Plus(Inner(row, x), e)) == KCanon(Plus(KRowSum(row, x, |x|), e))
  {
    hide KDot, KUnhat, Plus, KSame, KRowSum;
    KDotIsSum(row, x, |x|);
    KSameRefl(e);
    KSamePlus(Inner(row, x), KRowSum(row, x, |x|), e, e);
    KCanonUnique(Plus(Inner(row, x), e), Plus(KRowSum(row, x, |x|), e));
  }

  // ------------------------------------------------------------ encryption

  /** A row of A^T r + e1, or t r + (e2 + message), rounded to d bits. */
  function RoundedRow(row: KVec, r: KVec, e: KPoly, d: Width): (f: KPoly)
    requires |row| == |r|
  {
    CompressPoly(KCanon(Plus(KRowSum(row, r, |r|), e)), d)
  }

  /** The fields a ciphertext holds. */
  ghost predicate HasFields(p: KemParams, ct: seq<byte>, u: KVec, v: KPoly) {
    |ct| == p.CtBytes() && u == CtU(p, ct) && v == CtV(p, ct)
  }

  /** The fields of a ciphertext are A^T r + e1 and t r + e2 + message, rounded; entry j of row i of A^T comes from
      the indices i and j. */
  lemma CiphertextIs(p: KemParams, env: KemEnv, ek: seq<byte>, m: seq<byte>, c: Coins, i: nat)
    returns (rho: seq<byte>, row: KVec, t: KVec, u: KVec, v: KPoly, ct: seq<byte>)
    requires |ek| == p.EkBytes() && |m| == 32 && c.Shape(p) && i < p.K()
    ensures |row| == |t| == |u| == p.K() && forall j | 0 <= j < |row| :: row[j] == env.uniform(rho, i, j)
    ensures u[i] == RoundedRow(row, c.r, c.e1[i], p.Du())
    ensures v == RoundedRow(t, c.r, Plus(c.e2, FromMsg(m)), p.Dv())
    ensures HasFields(p, ct, u, v)
    ensures ct == Encrypt(p, env, ek, m, c) && rho == EkRho(p, ek) && t == EkT(p, ek)
  {
    hide Inner, Plus, KCanon, CompressPoly, KRowSum, EkRho, EkT, FromMsg, CtEncode, CtU, CtV;
    rho, t := EkRho(p, ek), EkT(p, ek);
    row := MatrixRow(p, env, rho, i);
    hide MatrixRow;
    ct := Encrypt(p, env, ek, m, c);
    u, v := CtU(p, ct), CtV(p, ct);
    CiphertextFields(p, EncryptU(p, env, rho, c.r, c.e1), EncryptV(t, c.r, c.e2, m), i);
    InnerPlus(row, c.r, c.e1[i]);
    InnerPlus(t, c.r, Plus(c.e2, FromMsg(m)));
    PlusTwice(Inner(t, c.r), c.e2, FromMsg(m));
  }

  lemma PlusTwice(x: KPoly, y: KPoly, w: KPoly)
    ensures Plus(Plus(x, y), w) == Plus(x, Plus(y, w))
  {
  }

  // ------------------------------------------------------------ the noise

  /** The noise polynomial of byte n: sampled from the SHAKE256 stream of the seed and n. */
  function Sampled(seed: seq<byte>, n: byte, eta: nat): KPoly
    requires eta == 2 || eta == 3
  {
    Cbd(KeccakSponge.Shake256(seed + [n], 64 * eta), eta)
  }

  lemma NoiseIs(seed: seq<byte>, n: nat, eta: nat)
    requires (eta == 2 || eta == 3) && n < 256
    ensures Noise(seed, n, eta) == Sampled(seed, n, eta)
  {
    hide Cbd, KeccakSponge.Sponge;
  }

  /** The noise of an encryption, in order: polynomial n is sampled from byte n. */
  lemma CoinStreams(p: KemParams, coins: seq<byte>, c: Coins, n: nat)
    requires c == CoinsOf(p, coins) && n <= 2 * p.K()
    ensures |c.r| == |c.e1| == p.K() && 2 * p.K() < 256
    ensures (c.r + c.e1 + [c.e2])[n] == Sampled(coins, n, if n < p.K() then p.Eta1() else 2)
  {
    hide Noise, Sampled;
    NoiseIs(coins, n, if n < p.K() then p.Eta1() else 2);
  }

  /** The secret and the error of a key, in order, from the second half of SHA3-512(d || k). */
  lemma SeedStreams(p: KemParams, d: seq<byte>, k: KeySeed, rho: seq<byte>, sigma: seq<byte>, n: nat)
    requires k == ExpandSeed(p, d) && |rho| == 32 && n < 2 * p.K()
    requires rho + sigma == KeccakSponge.Sponge(d + [p.K() as byte], 72, 0x06, 64)
    ensures |k.s| == |k.e| == p.K() && n < 256 && k.rho == rho
    ensures (k.s + k.e)[n] == Sampled(sigma, n, p.Eta1())
  {
    hide Noise, Sampled, KeccakSponge.Sponge;
    assert (rho + sigma)[..32] == rho && (rho + sigma)[32..] == sigma;
    NoiseIs(sigma, n, p.Eta1());
  }

  /** One stream for each polynomial. */
  lemma StreamInputsDiffer(seed: seq<byte>, m: byte, n: byte)
    requires m != n
    ensures seed + [m] != seed + [n]
  {
    assert (seed + [m])[|seed|] == m && (seed + [n])[|seed|] == n;
  }

  /** Bits a + b - c - d for eta = 2, six bits for eta = 3. */
  lemma CbdIs(buf: seq<byte>, eta: nat, i: nat)
    requires (eta == 2 || eta == 3) && |buf| == 64 * eta && i < 256
    ensures 2 * eta * i + 2 * eta <= 8 * |buf|
    ensures eta == 2 ==> Cbd(buf, 2)[i] == B2I(StreamBit(buf, 4 * i)) + B2I(StreamBit(buf, 4 * i + 1))
                                         - B2I(StreamBit(buf, 4 * i + 2)) - B2I(StreamBit(buf, 4 * i + 3))
    ensures eta == 3 ==> Cbd(buf, 3)[i] == B2I(StreamBit(buf, 6 * i)) + B2I(StreamBit(buf, 6 * i + 1))
                                         + B2I(StreamBit(buf, 6 * i + 2)) - B2I(StreamBit(buf, 6 * i + 3))
                                         - B2I(StreamBit(buf, 6 * i + 4)) - B2I(StreamBit(buf, 6 * i + 5))
  {
    hide StreamBit;
    if eta == 2 {
      TwoOnes(buf, 4 * i);
      TwoOnes(buf, 4 * i + 2);
    } else {
      TwoOnes(buf, 6 * i);
      TwoOnes(buf, 6 * i + 3);
      ThreeOnes(buf, 6 * i);
      ThreeOnes(buf, 6 * i + 3);
    }
  }

  lemma TwoOnes(buf: seq<byte>, pos: nat)
    requires (pos + 1) / 8 < |buf|
    ensures OnesIn(buf, pos, 2) == B2I(StreamBit(buf, pos)) + B2I(StreamBit(buf, pos + 1))
  {
    hide StreamBit;
    assert OnesIn(buf, pos, 1) == B2I(StreamBit(buf, pos));
  }

  lemma ThreeOnes(buf: seq<byte>, pos: nat)
    requires (pos + 2) / 8 < |buf|
    ensures OnesIn(buf, pos, 3) == OnesIn(buf, pos, 2) + B2I(StreamBit(buf, pos + 2))
  {
    hide StreamBit;
  }

  // ------------------------------------------------------------ encapsulation and keys

  /** (K, r) = SHA3-512(m || SHA3-256(ek)): the key, and the seed of the ciphertext's noise. */
  lemma EncapsulationIs(p: KemParams, env: KemEnv, ek: seq<byte>, m: seq<byte>, g: seq<byte>)
    returns (t: KVec, ct: seq<byte>)
    requires |ek| == p.EkBytes() && |m| == 32
    requires g == KeccakSponge.Sponge(m + KeccakSponge.Sponge(ek, 136, 0x06, 32), 72, 0x06, 64)
    ensures |t| == p.K()
    ensures Encapsulation(p, env, ek, m) ==
      if forall i, n | 0 <= i < p.K() && 0 <= n < 256 :: t[i][n] < 3329 then Some((ct, g[..32])) else None
    ensures t == EkT(p, ek) && ct == Encrypt(p, env, ek, m, CoinsOf(p, g[32..]))
  {
    hide Encrypt, CoinsOf, EkT, KeccakSponge.Sponge, CanonicalKey;
    t, ct := EkT(p, ek), Encrypt(p, env, ek, m, CoinsOf(p, g[32..]));
    CanonicalIff(p, ek);
  }

  lemma CanonicalIff(p: KemParams, ek: seq<byte>)
    requires |ek| == p.EkBytes()
    ensures CanonicalKey(EkT(p, ek)) <==> forall i, n | 0 <= i < p.K() && 0 <= n < 256 :: EkT(p, ek)[i][n] < 3329
  {
    var t := EkT(p, ek);
    forall i, n | 0 <= i < p.K() && 0 <= n < 256 ensures 0 <= t[i][n] { TwelveBitField(p, ek, i, n); }
    hide EkT;
    if CanonicalKey(t) {
      forall i, n | 0 <= i < p.K() && 0 <= n < 256 ensures t[i][n] < 3329 { assert InK(t[i], 0, KQ - 1); }
    }
  }

  lemma TwelveBitField(p: KemParams, ek: seq<byte>, i: nat, n: nat)
    requires |ek| == p.EkBytes() && i < p.K() && n < 256
    ensures 0 <= EkT(p, ek)[i][n]
  {
    hide UnpackBits, Block;
    BlockIn(i, p.K(), 384);
    assert Digits(EkT(p, ek)[i], Pow2(12));
  }

  /** t = A s + e in the ring, behind the encoding of the encapsulation key; entry j of row i of A comes from the
      indices j and i. */
  lemma PublicKeyIs(p: KemParams, env: KemEnv, k: KeySeed, i: nat) returns (row: KVec, t: KVec)
    requires k.Shape(p) && i < p.K()
    ensures |row| == |t| == p.K() && forall j | 0 <= j < |row| :: row[j] == env.uniform(k.rho, j, i)
    ensures KSame(KUnhat(t[i]), Plus(KRowSum(row, k.s, p.K()), k.e[i]))
    ensures EkT(p, EncapsKey(p, env, k)) == t && EkRho(p, EncapsKey(p, env, k)) == k.rho
  {
    hide KDot, KHat, KUnhat, KSame, Plus, KCanon, KRowSum, EncapsKey, EkT, EkRho, Encode12, Decode12;
    KeyReadBack(p, env, k);
    row, t := KeyRow(p, env, k.rho, i), PublicVec(p, env, k.rho, k.s, k.e);
    PublicRowIs(row, k.s, k.e[i], t[i]);
  }

  lemma PublicRowIs(row: KVec, s: KVec, e: KPoly, t: KPoly)
    requires |row| == |s| && t == PublicRow(row, s, e)
    ensures KSame(KUnhat(t), Plus(KRowSum(row, s, |s|), e))
  {
    hide KDot, KHat, KUnhat, KSame, Plus, KCanon, KRowSum;
    var d, n := KDot(row, s, |s|), |s|;
    KCanonSame(Plus(d, KHat(e)));
    KUnhatSame(t, Plus(d, KHat(e)));
    KUnhatPlus(d, KHat(e));
    KDotIsSum(row, s, n);
    KUnhatHat(e);
    KSamePlus(KUnhat(d), KRowSum(row, s, n), KUnhat(KHat(e)), e);
    KSameTrans(KUnhat(t), Plus(KUnhat(d), KUnhat(KHat(e))), Plus(KRowSum(row, s, n), e));
  }

  // ------------------------------------------------------------ any decapsulation key

  /** Decapsulation on every key of the right length, whatever its parts: the derived key when the key's ek is canonical
      and re-encryption under it gives the ciphertext, SHAKE256(z || ct) otherwise. */
  lemma DecapsOnAnyKey(p: KemParams, env: KemEnv, s: seq<byte>, ek: seq<byte>, h: seq<byte>, z: seq<byte>,
      ct: seq<byte>) returns (m: seq<byte>, g: seq<byte>, again: seq<byte>, t: KVec, shared: seq<byte>)
    requires |s| == p.K() * 384 && |ek| == p.EkBytes() && |h| == 32 && |z| == 32 && |ct| == p.CtBytes()
    ensures |t| == p.K() && |g| == 64 && |m| == 32 && g == KeccakSponge.Sponge(m + h, 72, 0x06, 64)
    ensures shared ==
      if (forall i, n | 0 <= i < p.K() && 0 <= n < 256 :: t[i][n] < 3329) && again == ct then g[..32]
      else KeccakSponge.Shake256(z + ct, 32)
    ensures m == Decrypt(p, s, ct) && t == EkT(p, ek) && again == Encrypt(p, env, ek, m, CoinsOf(p, g[32..]))
    ensures IsDecaps(p, env, s + ek + h + z, ct, shared)
  {
    hide Encrypt, CoinsOf, EkT, KeccakSponge.Sponge, CanonicalKey, Decrypt;
    var dk := s + ek + h + z;
    KeySections(p, s, ek, h, z);
    m, t := Decrypt(p, s, ct), EkT(p, ek);
    g := Sha3_512(m + h);
    again, shared := Encrypt(p, env, ek, m, CoinsOf(p, g[32..])), Decaps(p, env, dk, ct);
    CanonicalIff(p, ek);
  }

  ghost predicate IsDecaps(p: KemParams, env: KemEnv, dk: seq<byte>, ct: seq<byte>, shared: seq<byte>) {
    |dk| == p.DkBytes() && |ct| == p.CtBytes() && shared == Decaps(p, env, dk, ct)
  }

  lemma KeySections(p: KemParams, s: seq<byte>, ek: seq<byte>, h: seq<byte>, z: seq<byte>)
    requires |s| == p.K() * 384 && |ek| == p.EkBytes() && |h| == 32 && |z| == 32
    ensures var dk := s + ek + h + z;
      |dk| == p.DkBytes() && DkSecret(p, dk) == s && DkEk(p, dk) == ek && DkHash(p, dk) == h && DkZ(p, dk) == z
  {
    KeyCut(s, ek, h, z, p.K() * 384, p.EkBytes());
  }
}
