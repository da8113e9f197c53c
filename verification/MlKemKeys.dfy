/** ML-KEM key generation and encapsulation: sections 6.1 and 6.2 of FIPS 203 over the ring, and
    the code's steps computing them. */
module MlKemKeys {
  import opened Options
  import opened ModArith
  import opened Bits
  import opened Radix
  import opened BitCursor
  import opened NttTree
  import opened NttLoop
  import opened MlKemArith
  import opened MlKemNtt
  import opened MlKemRing
  import opened MlKemCompress
  import opened MlKemScheme
  import opened MlKemPlain
  import KeccakSponge

  function Sha3_256(m: seq<byte>): (h: seq<byte>) ensures |h| == 32 { KeccakSponge.Sponge(m, 136, 0x06, 32) }

  // ------------------------------------------------------------ the keys

  /** Row i of the matrix: key generation reads the transpose of what encryption reads. */
  function KeyRow(p: KemParams, env: KemEnv, rho: seq<byte>, i: nat): (row: KVec)
    ensures |row| == p.K()
  {
    seq<KPoly>(p.K(), j requires 0 <= j < p.K() => env.uniform(rho, j, i))
  }

  /** t = A s + e, transformed and canonical. */
  function PublicVec(p: KemParams, env: KemEnv, rho: seq<byte>, s: KVec, e: KVec): (t: KVec)
    requires |s| == |e| == p.K()
    ensures |t| == p.K()
  {
    seq<KPoly>(p.K(), i requires 0 <= i < p.K() => PublicRow(KeyRow(p, env, rho, i), s, e[i]))
  }

  function PublicRow(row: KVec, s: KVec, e: KPoly): KPoly
    requires |row| == |s|
  {
    KCanon(Plus(KDot(row, s, |s|), KHat(e)))
  }

  /** s, transformed and canonical. */
  function SecretVec(s: KVec): (h: KVec)
    ensures |h| == |s|
  {
    seq<KPoly>(|s|, i requires 0 <= i < |s| => KCanon(KHat(s[i])))
  }

  /** ByteEncode_12, one polynomial after another. */
  function Encode12(v: KVec): (s: seq<byte>)
    ensures |s| == |v| * 384
  {
    if v == [] then [] else
      BlockEnds(|v| - 1, 384);
      PackBits(v[0], 12, 384) + Encode12(v[1..])
  }

  /** What a 32-byte seed expands to: (rho, sigma) = G(d || k) and the noise. */
  datatype KeySeed = KeySeed(rho: seq<byte>, s: KVec, e: KVec) {
    predicate Shape(p: KemParams) { |rho| == 32 && |s| == |e| == p.K() }
  }

  function ExpandSeed(p: KemParams, d: seq<byte>): (k: KeySeed)
    ensures k.Shape(p)
  {
    var g := Sha3_512(d + [p.K()]);
    KeySeed(g[..32], NoiseVec(g[32..], 0, p.K(), p.Eta1()), NoiseVec(g[32..], p.K(), p.K(), p.Eta1()))
  }

  function EncapsKey(p: KemParams, env: KemEnv, k: KeySeed): (ek: seq<byte>)
    requires k.Shape(p)
    ensures |ek| == p.EkBytes()
  {
    Encode12(PublicVec(p, env, k.rho, k.s, k.e)) + k.rho
  }

  function DecapsKey(p: KemParams, env: KemEnv, k: KeySeed, z: seq<byte>): (dk: seq<byte>)
    requires k.Shape(p) && |z| == 32
    ensures |dk| == p.DkBytes()
  {
    var ek := EncapsKey(p, env, k);
    Encode12(SecretVec(k.s)) + ek + Sha3_256(ek) + z
  }

  /** A ciphertext and its key; none under a key that is not canonical. */
  function Encapsulation(p: KemParams, env: KemEnv, ek: seq<byte>, m: seq<byte>): (r: Option<(seq<byte>, seq<byte>)>)
    requires |ek| == p.EkBytes() && |m| == 32
    ensures r.Some? ==> |r.value.0| == p.CtBytes() && |r.value.1| == 32
  {
    var g := Sha3_512(m + Sha3_256(ek));
    if CanonicalKey(EkT(p, ek)) then Some((Encrypt(p, env, ek, m, CoinsOf(p, g[32..])), g[..32])) else None
  }

  // ------------------------------------------------------------ the code

  /** The factor 2^-16 a dot product carries, removed by one multiplication with 2^32 mod q. */
  lemma FactorRemoved(t: int, y: int)
    requires Cong(t, KRINV * y, KQ)
    ensures Cong(t * 1353 * KRINV, y, KQ)
  {
    var k := CongElim(t, KRINV * y, KQ);
    CongIntro(1353 * KRINV * KRINV, 1, KQ, (1353 * KRINV * KRINV - 1) / KQ);
    var m := (1353 * KRINV * KRINV - 1) / KQ;
    assert t * 1353 * KRINV == (KRINV * y + k * KQ) * (1353 * KRINV);
    assert (KRINV * y) * (1353 * KRINV) == y + y * m * KQ;
    CongIntro(t * 1353 * KRINV, y, KQ, k * (1353 * KRINV) + y * m);
  }

  method Unscaled(t: KPoly, ghost y: KPoly) returns (r: KPoly)
    requires KSame(t, Scale(KRINV, y)) && Within(t, 1664)
    ensures KSame(r, y) && Within(r, KQ - 1)
  {
    hide Cong, MontReduce16;
    var s: seq<int> := [];
    for j := 0 to 256
      invariant |s| == j && forall k | 0 <= k < j :: Cong(s[k], y[k], KQ) && -KQ < s[k] < KQ
    {
      assert Cong(t[j], Scale(KRINV, y)[j], KQ);
      FactorRemoved(t[j], y[j]);
      MontContract16(t[j] * 1353);
      CongTrans(MontReduce16(t[j] * 1353), t[j] * 1353 * KRINV, y[j], KQ);
      s := s + [MontReduce16(t[j] * 1353)];
    }
    r := s;
  }

  /** One row of t: the dot product, unscaled, plus the transformed noise, reduced. */
  method PublicPoly(row: KVec, sh: KVec, ghost s: KVec, eh: KPoly, ghost e: KPoly, z: seq<int>) returns (t: KPoly)
    requires 0 < |row| == |sh| <= 4 && KTransformed(sh, s) && KVecWithin(row, 4095) && KZetaTable(z)
    requires KSame(eh, KHat(e)) && Within(eh, 1664)
    ensures |s| == |row| && KCanon(t) == PublicRow(row, s, e) && Within(t, 1664)
  {
    hide KSame, KTransformed, KZetaTable, KVecWithin, Within, KDot, KCanon, Plus, KHat, Scale;
    KTransformedLength(sh, s);
    var x := VecDot(row, sh, s, z);
    var y := Unscaled(x, KDot(row, s, |s|));
    KWithinPlus(y, eh, KQ - 1, 1664);
    var w := KPolyAdd(y, eh);
    WithinWider(w, KQ - 1 + 1664, 0x7fff);
    t := KPolyReduce(w);
    KSamePlus(y, KDot(row, s, |s|), eh, KHat(e));
    KSameTrans(t, Plus(y, eh), Plus(KDot(row, s, |s|), KHat(e)));
    KCanonUnique(t, Plus(KDot(row, s, |s|), KHat(e)));
  }

  method ExpandKeyRow(p: KemParams, env: KemEnv, rho: seq<byte>, i: nat) returns (row: KVec)
    requires env.Valid()
    ensures row == KeyRow(p, env, rho, i) && KVecWithin(row, 4095)
  {
    row := [];
    for j := 0 to p.K()
      invariant |row| == j && forall k | 0 <= k < j :: row[k] == env.uniform(rho, k, i)
    {
      row := row + [env.uniform(rho, j, i)];
    }
    forall k | 0 <= k < |row| ensures Within(row[k], 4095) { assert InK(env.uniform(rho, k, i), 0, KQ - 1); }
  }

  /** One polynomial, canonical, in twelve bits a coefficient. */
  method EncodeCanon12(a: KPoly) returns (s: seq<byte>)
    requires Within(a, 0x7fff)
    ensures s == PackBits(KCanon(a), 12, 384)
  {
    var c := CanonPoly(a);
    assert Digits(c, Pow2(12)) by { TwelveBits(); }
    s := WriteFields(c, 12);
  }

  lemma TwelveBits()
    ensures KQ <= Pow2(12)
  {
    Pow2Values();
  }

  lemma Encode12Next(v: KVec, i: nat)
    requires i < |v|
    ensures Encode12(v[i..]) == PackBits(v[i], 12, 384) + Encode12(v[i + 1..])
  {
    assert v[i..][1..] == v[i + 1..];
  }

  lemma Encode12Ends(v: KVec)
    ensures v[0..] == v && Encode12(v[|v|..]) == []
  {
  }

  /** The encoded vectors of one key pair. */
  method KeyVectors(p: KemParams, env: KemEnv, k: KeySeed) returns (t: seq<byte>, s: seq<byte>)
    requires env.Valid() && k.Shape(p) && KVecWithin(k.s, 3) && KVecWithin(k.e, 3)
    ensures t == Encode12(PublicVec(p, env, k.rho, k.s, k.e)) && s == Encode12(SecretVec(k.s))
  {
    hide KSame, KZetaTable, Within, KDot, KCanon, Plus, KHat, KemEnv.Valid, PackBits, Encode12, PublicRow, KeyRow;
    var z := BuildKZetas();
    VecWiderK(k.s, 3, KQ);
    VecWiderK(k.e, 3, KQ);
    var sh := KVecNtt(k.s, z);
    var eh := KVecNtt(k.e, z);
    ghost var pub, sec := PublicVec(p, env, k.rho, k.s, k.e), SecretVec(k.s);
    Encode12Ends(pub);
    Encode12Ends(sec);
    t, s := [], [];
    for i := 0 to p.K()
      invariant t + Encode12(pub[i..]) == Encode12(pub) && s + Encode12(sec[i..]) == Encode12(sec)
    {
      var row := ExpandKeyRow(p, env, k.rho, i);
      var x := PublicPoly(row, sh, k.s, eh[i], k.e[i], z);
      WithinWider(x, 1664, 0x7fff);
      var a := EncodeCanon12(x);
      WithinWider(sh[i], 1664, 0x7fff);
      var b := EncodeCanon12(sh[i]);
      KCanonUnique(sh[i], KHat(k.s[i]));
      CanonOfCanon(row, k.s, k.e[i], x);
      Encode12Next(pub, i);
      Encode12Next(sec, i);
      t := t + a;
      s := s + b;
    }
  }

  lemma CanonOfCanon(row: KVec, s: KVec, e: KPoly, x: KPoly)
    requires |row| == |s| && KCanon(x) == PublicRow(row, s, e)
    ensures PackBits(KCanon(x), 12, 384) == PackBits(PublicRow(row, s, e), 12, 384)
  {
    hide PublicRow, PackBits;
  }

  /** ML-KEM.KeyGen_internal: the key pair of the two halves d and z of a 64-byte seed. */
  method KeyPair(p: KemParams, env: KemEnv, d: seq<byte>, z: seq<byte>) returns (ek: seq<byte>, dk: seq<byte>)
    requires env.Valid() && |d| == |z| == 32
    ensures ek == EncapsKey(p, env, ExpandSeed(p, d))
    ensures dk == DecapsKey(p, env, ExpandSeed(p, d), z)
  {
    hide KemEnv.Valid, KeccakSponge.Sponge, Encode12, PublicVec, SecretVec, Noise, Within;
    var g := OneShot(d + [p.K()], 72, 0x06, 64);
    var s := PrfVec(g[32..], 0, p.K(), p.Eta1());
    var e := PrfVec(g[32..], p.K(), p.K(), p.Eta1());
    var a, b := KeyVectors(p, env, KeySeed(g[..32], s, e));
    ek := a + g[..32];
    var h := OneShot(ek, 136, 0x06, 32);
    dk := b + ek + h + z;
  }

  /** ML-KEM.Encaps_internal. */
  method Encapsulate(p: KemParams, env: KemEnv, ek: seq<byte>, m: seq<byte>)
    returns (bad: bool, ct: seq<byte>, shared: seq<byte>)
    requires env.Valid() && |ek| == p.EkBytes() && |m| == 32
    ensures Encapsulation(p, env, ek, m) == if bad then None else Some((ct, shared))
  {
    hide KemEnv.Valid, KeccakSponge.Sponge, CanonicalKey, EkT, Encrypt, CoinsOf;
    var h := OneShot(ek, 136, 0x06, 32);
    var g := OneShot(m + h, 72, 0x06, 64);
    bad, ct := PkeEncrypt(p, env, ek, m, g[32..]);
    shared := g[..32];
  }
}
