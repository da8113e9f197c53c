/** ML-KEM end to end: the decapsulation of an honest encapsulation returns its key exactly when the
    noise it carries stays inside the decoding windows. */
module MlKemRoundTrip {
  import opened Options
  import opened ModArith
  import opened Bits
  import opened Radix
  import opened BitCursor
  import opened NttTree
  import opened NegacyclicRing
  import opened MlKemArith
  import opened MlKemNtt
  import opened MlKemRing
  import opened MlKemCompress
  import opened MlKemScheme
  import opened MlKemPlain
  import opened MlKemKeys
  import opened MlKemCorrect

  // ------------------------------------------------------------ reading back what was written

  ghost predicate Canonical(v: KVec) { forall i | 0 <= i < |v| :: InK(v[i], 0, KQ - 1) }

  lemma {:induction false} Encode12Block(v: KVec, i: nat)
    requires i < |v|
    ensures (i + 1) * 384 <= |Encode12(v)| && Block(Encode12(v), i, 384) == PackBits(v[i], 12, 384)
    decreases i
  {
    hide PackBits;
    BlockEnds(i, 384);
    BlockIn(i, |v|, 384);
    if i > 0 {
      Encode12Block(v[1..], i - 1);
      assert Encode12(v)[384..] == Encode12(v[1..]);
    }
  }

  lemma DecodeEncode12(v: KVec)
    requires Canonical(v)
    ensures Decode12(Encode12(v), |v|) == v
  {
    hide PackBits, UnpackBits, Encode12, Block;
    forall i | 0 <= i < |v| ensures Decode12(Encode12(v), |v|)[i] == v[i] {
      Encode12Block(v, i);
      assert Digits(v[i], Pow2(12)) by { TwelveBits(); assert InK(v[i], 0, KQ - 1); }
      UnpackPack(v[i], 12, 384);
    }
    assert Decode12(Encode12(v), |v|) == v;
  }

  lemma BlockShift(a: seq<byte>, b: seq<byte>, n: nat, i: nat)
    requires |a| == n && 0 < i && i * n <= |b|
    ensures (i + 1) * n <= |a + b| && Block(a + b, i, n) == Block(b, i - 1, n)
  {
    BlockEnds(i, n);
    BlockEnds(i - 1, n);
    assert (a + b)[n..] == b;
    assert (a + b)[i * n..(i + 1) * n] == (a + b)[n..][(i - 1) * n..i * n];
  }

  lemma BlockFirst(a: seq<byte>, b: seq<byte>, n: nat)
    requires |a| == n
    ensures n <= |a + b| && (0 + 1) * n == n && Block(a + b, 0, n) == a
  {
  }

  lemma {:induction false} EncodeUBlock(u: KVec, d: Width, i: nat)
    requires i < |u|
    ensures (i + 1) * (32 * d) <= |EncodeU(u, d)| && Block(EncodeU(u, d), i, 32 * d) == EncodeV(u[i], d)
    decreases i
  {
    hide EncodeV, Block;
    if i == 0 {
      BlockFirst(EncodeV(u[0], d), EncodeU(u[1..], d), 32 * d);
    } else {
      EncodeUBlock(u[1..], d, i - 1);
      BlockShift(EncodeV(u[0], d), EncodeU(u[1..], d), 32 * d, i);
    }
  }

  lemma UnpackEncoded(v: KPoly, d: Width)
    ensures UnpackBits(EncodeV(v, d), d, 256) == CompressPoly(v, d)
  {
    hide PackBits, UnpackBits, Compress;
    var f := CompressPoly(v, d);
    assert Digits(f, Pow2(d)) by { assert Levels(d) == Pow2(d); }
    UnpackPack(f, d, 32 * d);
  }

  /** The ciphertext's fields are the compressed polynomials. */
  lemma CiphertextFields(p: KemParams, u: KVec, v: KPoly, i: nat)
    requires |u| == p.K() && i < p.K()
    ensures var ct := CtEncode(p, u, v);
      CtU(p, ct)[i] == CompressPoly(u[i], p.Du()) && CtV(p, ct) == CompressPoly(v, p.Dv())
  {
    hide EncodeV, UnpackBits, CompressPoly, EncodeU, Block;
    var ct := CtEncode(p, u, v);
    BlockIn(i, p.K(), p.UBytes());
    EncodeUBlock(u, p.Du(), i);
    BlockPrefix(EncodeU(u, p.Du()), EncodeV(v, p.Dv()), i, p.UBytes());
    UnpackEncoded(u[i], p.Du());
    UnpackEncoded(v, p.Dv());
    assert ct[p.K() * p.UBytes()..] == EncodeV(v, p.Dv());
  }

  lemma BlockPrefix(a: seq<byte>, b: seq<byte>, i: nat, n: nat)
    requires (i + 1) * n <= |a|
    ensures (i + 1) * n <= |a + b| && Block(a + b, i, n) == Block(a, i, n)
  {
    BlockEnds(i, n);
  }

  // ------------------------------------------------------------ the noise

  /** What compression moves a coefficient by. */
  function Rounding(a: KPoly, d: Width): (r: KPoly) {
    seq(256, i requires 0 <= i < 256 => Decompress(Compress(a[i], d), d) - a[i])
  }

  /** e1 and the rounding of u. */
  function RoundedNoise(p: KemParams, e1: KVec, u: KVec): (f: KVec)
    requires |e1| == |u|
    ensures |f| == |u|
  {
    seq<KPoly>(|u|, j requires 0 <= j < |u| => Plus(e1[j], Rounding(u[j], p.Du())))
  }

  /** e . r + e2 + rounding - s . (e1 + rounding): what rides on the message. */
  function NoiseOf(p: KemParams, k: KeySeed, c: Coins, u: KVec, v: KPoly): (n: KPoly)
    requires k.Shape(p) && c.Shape(p) && |u| == p.K()
  {
    Plus(Plus(RingDot(k.e, c.r, p.K()), Plus(c.e2, Rounding(v, p.Dv()))),
      Negated(RingDot(k.s, RoundedNoise(p, c.e1, u), p.K())))
  }

  lemma RoundedBack(a: KPoly, d: Width)
    ensures DecompressPoly(CompressPoly(a, d), d) == Plus(a, Rounding(a, d))
  {
    hide Compress, Decompress;
  }

  function KeyMatrix(p: KemParams, env: KemEnv, rho: seq<byte>): (A: seq<KVec>)
    ensures |A| == p.K() && Rect(A, p.K())
  {
    seq<KVec>(p.K(), i requires 0 <= i < p.K() => KeyRow(p, env, rho, i))
  }

  /** Encryption's matrix rows are key generation's columns. */
  lemma MatrixTransposed(p: KemParams, env: KemEnv, rho: seq<byte>, j: nat)
    requires j < p.K()
    ensures Transposed(KeyMatrix(p, env, rho), j) == MatrixRow(p, env, rho, j)
  {
  }

  lemma PublicRowsHold(p: KemParams, env: KemEnv, rho: seq<byte>, s: KVec, e: KVec)
    requires |s| == |e| == p.K()
    ensures PublicRows(KeyMatrix(p, env, rho), s, e, PublicVec(p, env, rho, s, e))
  {
    hide KDot, KHat, KSame, Plus, KeyRow;
    var A, t := KeyMatrix(p, env, rho), PublicVec(p, env, rho, s, e);
    forall i | 0 <= i < |t| ensures KSame(t[i], Plus(KDot(A[i], s, |s|), KHat(e[i]))) {
      KCanonSame(Plus(KDot(KeyRow(p, env, rho, i), s, |s|), KHat(e[i])));
    }
  }

  lemma SecretHolds(s: KVec)
    ensures HatOf(SecretVec(s), s)
  {
    hide KHat, KSame;
    forall j | 0 <= j < |s| ensures KSame(SecretVec(s)[j], KHat(s[j])) { KCanonSame(KHat(s[j])); }
  }

  /** The transform of one decompressed polynomial of u. */
  lemma ColumnHolds(row: KVec, r: KVec, e: KPoly, rho: KPoly)
    requires |row| == |r|
    ensures KSame(KHat(Plus(EncryptRow(row, r, e), rho)), Plus(KDot(row, r, |r|), KHat(Plus(e, rho))))
  {
    hide KDot, KHat, KUnhat, KSame, Plus;
    var d := KDot(row, r, |r|);
    var x := Inner(row, r);
    KCanonSame(Plus(x, e));
    KSameRefl(rho);
    KSamePlus(EncryptRow(row, r, e), Plus(x, e), rho, rho);
    PlusRegroup(x, e, rho);
    KHatSame(Plus(EncryptRow(row, r, e), rho), Plus(x, Plus(e, rho)));
    KHatPlus(x, Plus(e, rho));
    KHatUnhat(d);
    KSameRefl(KHat(Plus(e, rho)));
    KSamePlus(KHat(x), d, KHat(Plus(e, rho)), KHat(Plus(e, rho)));
    KSameTrans(KHat(Plus(EncryptRow(row, r, e), rho)), Plus(KHat(x), KHat(Plus(e, rho))), Plus(d, KHat(Plus(e, rho))));
  }

  // ------------------------------------------------------------ the residual

  lemma ResidualScalar(v: int, x: int, e2: int, mu: int, rho: int, y: int, a: int, b: int)
    requires Cong(v, x + e2 + mu, KQ) && Cong(x + b, y + a, KQ)
    ensures Cong(v + rho + -y, mu + ((a + (e2 + rho)) + -b), KQ)
  {
    var i := CongElim(v, x + e2 + mu, KQ);
    var j := CongElim(x + b, y + a, KQ);
    CongIntro(v + rho + -y, mu + ((a + (e2 + rho)) + -b), KQ, i + j);
  }

  /** The residual, from the public and secret products that meet. */
  lemma ResidualMeets(v: KPoly, x: KPoly, e2: KPoly, mu: KPoly, rho: KPoly, y: KPoly, a: KPoly, b: KPoly)
    requires KSame(v, Plus(Plus(x, e2), mu)) && KSame(Plus(x, b), Plus(y, a))
    ensures KSame(Plus(Plus(v, rho), Negated(y)), Plus(mu, Plus(Plus(a, Plus(e2, rho)), Negated(b))))
  {
    hide Cong;
    var l, r := Plus(Plus(v, rho), Negated(y)), Plus(mu, Plus(Plus(a, Plus(e2, rho)), Negated(b)));
    forall i | 0 <= i < 256 ensures Cong(l[i], r[i], KQ) {
      assert Cong(v[i], Plus(Plus(x, e2), mu)[i], KQ) && Cong(Plus(x, b)[i], Plus(y, a)[i], KQ);
      ResidualScalar(v[i], x[i], e2[i], mu[i], rho[i], y[i], a[i], b[i]);
    }
  }

  /** u as decryption decompresses it. */
  function ReadBack(p: KemParams, u: KVec): (r: KVec)
    ensures |r| == |u|
  {
    seq<KPoly>(|u|, j requires 0 <= j < |u| => DecompressPoly(CompressPoly(u[j], p.Du()), p.Du()))
  }

  lemma ColumnsHold(p: KemParams, env: KemEnv, rho: seq<byte>, r: KVec, e1: KVec)
    requires |r| == |e1| == p.K()
    ensures var u := EncryptU(p, env, rho, r, e1);
      SecretColumns(KeyMatrix(p, env, rho), r, RoundedNoise(p, e1, u), ReadBack(p, u))
  {
    hide KDot, KHat, KSame, Plus, EncryptRow, Rounding, DecompressPoly, CompressPoly, KeyMatrix, MatrixRow, Transposed;
    var u := EncryptU(p, env, rho, r, e1);
    var A, f, w := KeyMatrix(p, env, rho), RoundedNoise(p, e1, u), ReadBack(p, u);
    forall j | 0 <= j < |f| ensures KSame(KHat(w[j]), Plus(KDot(Transposed(A, j), r, |r|), KHat(f[j]))) {
      RoundedBack(u[j], p.Du());
      MatrixTransposed(p, env, rho, j);
      ColumnHolds(MatrixRow(p, env, rho, j), r, e1[j], Rounding(u[j], p.Du()));
    }
  }

  /** v - s . u is the message plus the noise, mod q. */
  lemma ResidualIs(p: KemParams, env: KemEnv, k: KeySeed, c: Coins, m: seq<byte>)
    requires k.Shape(p) && c.Shape(p) && |m| == 32
    ensures var t, h := PublicVec(p, env, k.rho, k.s, k.e), SecretVec(k.s);
      var u, v := EncryptU(p, env, k.rho, c.r, c.e1), EncryptV(t, c.r, c.e2, m);
      KSame(Plus(DecompressPoly(CompressPoly(v, p.Dv()), p.Dv()), Negated(Inner(h, ReadBack(p, u)))),
        Plus(FromMsg(m), NoiseOf(p, k, c, u, v)))
  {
    hide KDot, KHat, KUnhat, KSame, Plus, EncryptRow, Rounding, DecompressPoly, CompressPoly, KeyMatrix, FromMsg,
      RingDot, PublicRows, SecretColumns, HatOf, EncryptU, PublicVec, SecretVec, ReadBack, RoundedNoise;
    var t, h := PublicVec(p, env, k.rho, k.s, k.e), SecretVec(k.s);
    var u, v := EncryptU(p, env, k.rho, c.r, c.e1), EncryptV(t, c.r, c.e2, m);
    var A, f, w := KeyMatrix(p, env, k.rho), RoundedNoise(p, c.e1, u), ReadBack(p, u);
    PublicRowsHold(p, env, k.rho, k.s, k.e);
    SecretHolds(k.s);
    ColumnsHold(p, env, k.rho, c.r, c.e1);
    ProductsMeet(A, k.s, k.e, c.r, f, t, h, w);
    KCanonSame(Plus(Plus(Inner(t, c.r), c.e2), FromMsg(m)));
    RoundedBack(v, p.Dv());
    ResidualMeets(v, Inner(t, c.r), c.e2, FromMsg(m), Rounding(v, p.Dv()), Inner(h, w), RingDot(k.e, c.r, p.K()),
      RingDot(k.s, f, p.K()));
  }

  // ------------------------------------------------------------ decoding

  /** The noise a bit's coefficient survives: within 832 of it either way, one less above a set bit. */
  predicate InWindow(bit: bool, n: int) {
    n % KQ >= KQ - 832 || n % KQ <= (if bit then 831 else 832)
  }

  lemma BitSurvives(bit: bool, n: int)
    ensures Compress(((if bit then (KQ + 1) / 2 else 0) + n) % KQ, 1) == B2I(bit) <==> InWindow(bit, n)
  {
    var x := ((if bit then (KQ + 1) / 2 else 0) + n) % KQ;
    BitOfCompressed(x);
    var q, r := n / KQ, n % KQ;
    if bit {
      if 1665 + r < KQ { DivModUnique(1665 + n, KQ, q, 1665 + r); }
      else { DivModUnique(1665 + n, KQ, q + 1, 1665 + r - KQ); }
    }
  }

  /** A message is its 256 bits. */
  lemma MessageOfBits(w: KPoly, m: seq<byte>)
    requires |m| == 32
    ensures EncodeV(w, 1) == m <==> forall i: nat | i < 256 :: Compress(w[i], 1) == B2I(StreamBit(m, i))
  {
    hide Compress, PackBits, UnpackBits;
    var f := CompressPoly(w, 1);
    UnpackEncoded(w, 1);
    var g := UnpackBits(m, 1, 256);
    PackUnpack(m, 1, 256);
    forall i: nat | i < 256 ensures g[i] == B2I(StreamBit(m, i)) { MessageField(m, i); }
    if EncodeV(w, 1) == m {
      forall i: nat | i < 256 ensures Compress(w[i], 1) == B2I(StreamBit(m, i)) { assert f[i] == g[i]; }
    }
    if forall i: nat | i < 256 :: Compress(w[i], 1) == B2I(StreamBit(m, i)) {
      assert f == g;
    }
  }

  lemma MessageField(m: seq<byte>, i: nat)
    requires |m| == 32 && i < 256
    ensures UnpackBits(m, 1, 256)[i] == B2I(StreamBit(m, i))
  {
    hide UnpackBits;
    FieldBitIs(m, 1, i, 0);
    var x := UnpackBits(m, 1, 256)[i];
    assert Digits(UnpackBits(m, 1, 256), Pow2(1)) && Pow2(1) == 2 by { Pow2Values(); }
    OneBitOf(x);
    assert i * 1 + 0 == i;
  }

  /** Every coefficient of the noise inside its bit's window. */
  predicate Decodable(m: seq<byte>, n: KPoly)
    requires |m| == 32
  {
    forall i: nat | i < 256 :: InWindow(StreamBit(m, i), n[i])
  }

  lemma DecodesWhen(w: KPoly, m: seq<byte>, n: KPoly)
    requires |m| == 32 && KSame(w, Plus(FromMsg(m), n))
    ensures EncodeV(KCanon(w), 1) == m <==> Decodable(m, n)
  {
    hide Compress, InWindow, EncodeV;
    MessageOfBits(KCanon(w), m);
    KCanonUnique(w, Plus(FromMsg(m), n));
    forall i: nat | i < 256 ensures Compress(KCanon(w)[i], 1) == B2I(StreamBit(m, i)) <==>
      InWindow(StreamBit(m, i), n[i]) {
      BitSurvives(StreamBit(m, i), n[i]);
      assert KCanon(w)[i] == KCanon(Plus(FromMsg(m), n))[i];
    }
  }

  // ------------------------------------------------------------ the round trips

  /** The noise of encrypting m under the key of k with coins c. */
  function TripNoise(p: KemParams, env: KemEnv, k: KeySeed, c: Coins, m: seq<byte>): KPoly
    requires k.Shape(p) && c.Shape(p) && |m| == 32
  {
    NoiseOf(p, k, c, EncryptU(p, env, k.rho, c.r, c.e1), EncryptV(PublicVec(p, env, k.rho, k.s, k.e), c.r, c.e2, m))
  }

  lemma PublicCanonical(p: KemParams, env: KemEnv, k: KeySeed)
    requires k.Shape(p)
    ensures Canonical(PublicVec(p, env, k.rho, k.s, k.e)) && Canonical(SecretVec(k.s))
  {
    hide KDot, KHat;
  }

  /** The encapsulation key reads back as t and rho. */
  lemma KeyReadBack(p: KemParams, env: KemEnv, k: KeySeed)
    requires k.Shape(p)
    ensures var ek := EncapsKey(p, env, k);
      EkT(p, ek) == PublicVec(p, env, k.rho, k.s, k.e) && EkRho(p, ek) == k.rho && CanonicalKey(EkT(p, ek))
    ensures Decode12(Encode12(SecretVec(k.s)), p.K()) == SecretVec(k.s)
  {
    hide PublicVec, SecretVec, Encode12, Decode12;
    var t := PublicVec(p, env, k.rho, k.s, k.e);
    PublicCanonical(p, env, k);
    DecodeEncode12(t);
    DecodeEncode12(SecretVec(k.s));
    var ek := EncapsKey(p, env, k);
    assert ek[..p.K() * 384] == Encode12(t) && ek[p.K() * 384..] == k.rho;
  }

  /** Decryption returns the message exactly when the noise is decodable. */
  lemma DecryptsWhen(p: KemParams, env: KemEnv, k: KeySeed, c: Coins, m: seq<byte>)
    requires k.Shape(p) && c.Shape(p) && |m| == 32
    ensures Decrypt(p, Encode12(SecretVec(k.s)), Encrypt(p, env, EncapsKey(p, env, k), m, c)) == m
      <==> Decodable(m, TripNoise(p, env, k, c, m))
  {
    hide PublicVec, SecretVec, Encode12, Decode12, EncapsKey, EkT, EkRho, EncryptU, EncryptV, EncodeV, CtEncode, CtU,
      CtV, Inner, NoiseOf, KSame, KCanon, Decodable, DecompressPoly, CompressPoly;
    var ek := EncapsKey(p, env, k);
    KeyReadBack(p, env, k);
    var u, v := EncryptU(p, env, k.rho, c.r, c.e1), EncryptV(PublicVec(p, env, k.rho, k.s, k.e), c.r, c.e2, m);
    var ct := CtEncode(p, u, v);
    forall i | 0 <= i < p.K() ensures CtU(p, ct)[i] == CompressPoly(u[i], p.Du()) { CiphertextFields(p, u, v, i); }
    CiphertextFields(p, u, v, 0);
    ReadBackIs(p, u, CtU(p, ct));
    var w := Plus(DecompressPoly(CompressPoly(v, p.Dv()), p.Dv()), Negated(Inner(SecretVec(k.s), ReadBack(p, u))));
    assert Residual(p, Encode12(SecretVec(k.s)), ct) == KCanon(w);
    ResidualIs(p, env, k, c, m);
    DecodesWhen(w, m, TripNoise(p, env, k, c, m));
  }

  lemma ReadBackIs(p: KemParams, u: KVec, f: KVec)
    requires |u| == |f| == p.K() && forall i | 0 <= i < p.K() :: f[i] == CompressPoly(u[i], p.Du())
    ensures seq<KPoly>(p.K(), i requires 0 <= i < p.K() => DecompressPoly(f[i], p.Du())) == ReadBack(p, u)
  {
    hide CompressPoly, DecompressPoly;
  }

  /** The parts of a generated decapsulation key. */
  lemma KeyParts(p: KemParams, env: KemEnv, k: KeySeed, z: seq<byte>)
    requires k.Shape(p) && |z| == 32
    ensures var dk, ek := DecapsKey(p, env, k, z), EncapsKey(p, env, k);
      DkSecret(p, dk) == Encode12(SecretVec(k.s)) && DkEk(p, dk) == ek && DkHash(p, dk) == Sha3_256(ek)
  {
    hide EncapsKey, Encode12, Sha3_256, SecretVec;
    var dk, ek := DecapsKey(p, env, k, z), EncapsKey(p, env, k);
    KeyCut(Encode12(SecretVec(k.s)), ek, Sha3_256(ek), z, p.K() * 384, p.EkBytes());
    assert dk == Encode12(SecretVec(k.s)) + ek + Sha3_256(ek) + z;
  }

  lemma KeyCut(a: seq<byte>, b: seq<byte>, c: seq<byte>, z: seq<byte>, n: nat, w: nat)
    requires |a| == n && |b| == w && |c| == 32
    ensures var s := a + b + c + z;
      |s| == n + w + 32 + |z| && s[..n] == a && s[n..n + w] == b && s[n + w..n + w + 32] == c
  {
  }

  /** (K, r) = G(m || H(ek)). */
  function Derivation(p: KemParams, env: KemEnv, k: KeySeed, m: seq<byte>): (g: seq<byte>)
    requires k.Shape(p)
    ensures |g| == 64
  {
    Sha3_512(m + Sha3_256(EncapsKey(p, env, k)))
  }

  /** An honest key is always accepted. */
  lemma Encapsulates(p: KemParams, env: KemEnv, k: KeySeed, m: seq<byte>)
    requires k.Shape(p) && |m| == 32
    ensures var g := Derivation(p, env, k, m);
      Encapsulation(p, env, EncapsKey(p, env, k), m) ==
      Some((Encrypt(p, env, EncapsKey(p, env, k), m, CoinsOf(p, g[32..])), g[..32]))
  {
    hide EncapsKey, EkT, EkRho, CanonicalKey, Sha3_256, Sha3_512, CoinsOf, Encrypt, PublicVec, SecretVec, Decode12,
      Encode12;
    KeyReadBack(p, env, k);
  }

  /** The noise an encapsulation of m under the key of k carries. */
  predicate HonestNoise(p: KemParams, env: KemEnv, k: KeySeed, m: seq<byte>)
    requires k.Shape(p) && |m| == 32
  {
    Decodable(m, TripNoise(p, env, k, CoinsOf(p, Derivation(p, env, k, m)[32..]), m))
  }

  /** Decapsulation decrypts an honest ciphertext exactly when its noise is decodable. */
  lemma HonestDecrypts(p: KemParams, env: KemEnv, k: KeySeed, z: seq<byte>, m: seq<byte>, ct: seq<byte>,
      shared: seq<byte>)
    requires k.Shape(p) && |z| == |m| == 32 && Encapsulation(p, env, EncapsKey(p, env, k), m) == Some((ct, shared))
    ensures |ct| == p.CtBytes() && (Decrypt(p, DkSecret(p, DecapsKey(p, env, k, z)), ct) == m <==>
      HonestNoise(p, env, k, m))
  {
    hide EncapsKey, DecapsKey, Encapsulation, Encrypt, Decrypt, CoinsOf, Derivation, Decodable, TripNoise, SecretVec,
      Encode12;
    Encapsulates(p, env, k, m);
    KeyParts(p, env, k, z);
    DecryptsWhen(p, env, k, CoinsOf(p, Derivation(p, env, k, m)[32..]), m);
  }

  /** Decapsulation under a canonical key accepts a ciphertext its own decryption re-encrypts to. */
  lemma Accepts(p: KemParams, env: KemEnv, dk: seq<byte>, m: seq<byte>, ct: seq<byte>, g: seq<byte>)
    requires |dk| == p.DkBytes() && |ct| == p.CtBytes() && |m| == 32 && |g| == 64
    requires Decrypt(p, DkSecret(p, dk), ct) == m && Derived(p, dk, m) == g
    requires Reencrypts(p, env, DkEk(p, dk), m, g[32..], ct)
    ensures Decaps(p, env, dk, ct) == g[..32]
  {
    hide Decrypt, Derived, Reencrypts, RejectKey, DkSecret, DkEk;
  }

  lemma HonestDerived(p: KemParams, env: KemEnv, k: KeySeed, z: seq<byte>, m: seq<byte>)
    requires k.Shape(p) && |z| == |m| == 32
    ensures Derived(p, DecapsKey(p, env, k, z), m) == Derivation(p, env, k, m)
  {
    hide EncapsKey, DecapsKey, Sha3_256, Sha3_512, DkHash;
    KeyParts(p, env, k, z);
  }

  lemma HonestReencrypts(p: KemParams, env: KemEnv, k: KeySeed, ek: seq<byte>, m: seq<byte>, ct: seq<byte>,
      shared: seq<byte>, g: seq<byte>)
    requires |g| == 64 && |m| == 32 && k.Shape(p) && g == Derivation(p, env, k, m) && ek == EncapsKey(p, env, k)
    requires Encapsulation(p, env, ek, m) == Some((ct, shared))
    ensures Reencrypts(p, env, ek, m, g[32..], ct) && shared == g[..32]
  {
    hide EncapsKey, Encapsulation, Encrypt, CoinsOf, CanonicalKey, EkT, EkRho, Derivation, PublicVec, SecretVec,
      Encode12, Decode12;
    Encapsulates(p, env, k, m);
    KeyReadBack(p, env, k);
  }

  /** Decapsulating an honest encapsulation whose noise is decodable returns the encapsulated key. */
  lemma RoundTrip(p: KemParams, env: KemEnv, k: KeySeed, z: seq<byte>, m: seq<byte>, ct: seq<byte>, shared: seq<byte>)
    requires k.Shape(p) && |z| == |m| == 32 && Encapsulation(p, env, EncapsKey(p, env, k), m) == Some((ct, shared))
    requires HonestNoise(p, env, k, m)
    ensures |ct| == p.CtBytes() && Decaps(p, env, DecapsKey(p, env, k, z), ct) == shared
  {
    hide EncapsKey, DecapsKey, Encapsulation, Decaps, Decrypt, HonestNoise, Derived, Derivation, Reencrypts, DkSecret,
      DkEk, DkHash, Sha3_256, SecretVec, Encode12;
    HonestDecrypts(p, env, k, z, m, ct, shared);
    HonestDerived(p, env, k, z, m);
    HonestReencrypts(p, env, k, EncapsKey(p, env, k), m, ct, shared, Derivation(p, env, k, m));
    KeyParts(p, env, k, z);
    Accepts(p, env, DecapsKey(p, env, k, z), m, ct, Derivation(p, env, k, m));
  }
}
