/** The masked decapsulation from end to end: the comparison of the re-encryption with the
    ciphertext, the choice of the shared secret, and the theorem that the result is Decaps. */
module MlKemDecapsMasked {
  import opened ModArith
  import opened Bits
  import opened Radix
  import opened BitCursor
  import opened NttTree
  import opened NttLoop
  import opened MlKemArith
  import opened MlKemNtt
  import opened MlKemRing
  import opened MlKemCompress
  import opened MlKemScheme
  import opened MlKemPlain
  import opened MlKemMasked
  import opened MaskedGadgets
  import opened MaskedConversions
  import KeccakSponge
  import MaskedKeccak

  // ------------------------------------------------------------ bytes against coefficients

  /** A packed polynomial equals a byte block exactly when every coefficient compresses to its field. */
  lemma EncodeVMatches(v: KPoly, d: Width, s: seq<byte>)
    requires |s| == 32 * d
    ensures EncodeV(v, d) == s <==> MatchesUpTo(v, UnpackBits(s, d, 256), d, 256)
  {
    hide Compress, PackBits, UnpackBits;
    var c := CompressPoly(v, d);
    assert Digits(c, Pow2(d));
    UnpackPack(c, d, 32 * d);
    PackUnpack(s, d, 256);
    var f := UnpackBits(s, d, 256);
    if MatchesUpTo(v, f, d, 256) {
      assert c == f;
    }
  }

  lemma BlockShift(s: seq<byte>, i: nat, n: nat)
    requires (i + 2) * n <= |s| && n <= |s|
    ensures (i + 1) * n <= |s[n..]| && Block(s[n..], i, n) == Block(s, i + 1, n)
  {
    BlockEnds(i, n);
    BlockEnds(i + 1, n);
    var a := i * n;
    assert s[n..][a..a + n] == s[a + n..a + n + n];
  }

  /** Block by block. */
  ghost predicate BlocksSpell(u: KVec, d: Width, s: seq<byte>) {
    |s| == |u| * (32 * d) && forall i | 0 <= i < |u| :: EncodeV(u[i], d) == BlockOf(s, i, |u|, d)
  }

  function BlockOf(s: seq<byte>, i: nat, k: nat, d: Width): (b: seq<byte>)
    requires i < k && |s| == k * (32 * d)
    ensures |b| == 32 * d
  {
    BlockIn(i, k, 32 * d);
    Block(s, i, 32 * d)
  }

  lemma {:induction false} EncodeUBlocks(u: KVec, d: Width, s: seq<byte>)
    requires |s| == |u| * (32 * d)
    ensures EncodeU(u, d) == s <==> BlocksSpell(u, d, s)
    decreases |u|
  {
    hide EncodeV;
    var n := 32 * d;
    if u == [] {
      assert s == [];
    } else {
      BlockEnds(|u| - 1, n);
      EncodeUBlocks(u[1..], d, s[n..]);
      BlocksOneMore(u, d, s);
      HeadAndTail(EncodeV(u[0], d), EncodeU(u[1..], d), s);
    }
  }

  lemma HeadAndTail(a: seq<byte>, b: seq<byte>, s: seq<byte>)
    requires |s| == |a| + |b|
    ensures a + b == s <==> a == s[..|a|] && b == s[|a|..]
  {
    assert s[..|a|] + s[|a|..] == s;
    assert (a + b)[..|a|] == a && (a + b)[|a|..] == b;
  }

  lemma BlocksOneMore(u: KVec, d: Width, s: seq<byte>)
    requires u != [] && |s| == |u| * (32 * d) && |s[32 * d..]| == |u[1..]| * (32 * d)
    ensures BlocksSpell(u, d, s) <==> EncodeV(u[0], d) == s[..32 * d] && BlocksSpell(u[1..], d, s[32 * d..])
  {
    hide EncodeV;
    var n, t := 32 * d, s[32 * d..];
    var k, l := |u|, |u| - 1;
    assert BlockOf(s, 0, k, d) == s[..n];
    forall i | 0 <= i < l ensures BlockOf(t, i, l, d) == BlockOf(s, i + 1, k, d) {
      BlockIn(i + 1, k, n);
      BlockShift(s, i, n);
    }
    if EncodeV(u[0], d) == s[..n] && BlocksSpell(u[1..], d, t) {
      forall i | 0 <= i < k ensures EncodeV(u[i], d) == BlockOf(s, i, k, d) {
        if i > 0 { var j := i - 1; assert EncodeV(u[1..][j], d) == BlockOf(t, j, l, d); }
      }
    }
    if BlocksSpell(u, d, s) {
      forall i | 0 <= i < l ensures EncodeV(u[1..][i], d) == BlockOf(t, i, l, d) {
        var j := i + 1;
        assert EncodeV(u[j], d) == BlockOf(s, j, k, d);
      }
    }
  }

  /** The first n of u match their fields of the ciphertext. */
  ghost predicate UMatches(p: KemParams, u: KVec, ct: seq<byte>, n: nat)
    requires |u| == p.K() && |ct| == p.CtBytes() && n <= |u|
  {
    forall i | 0 <= i < n :: MatchesUpTo(u[i], CtU(p, ct)[i], p.Du(), 256)
  }

  /** The re-encryption is the ciphertext exactly when every coefficient compresses to its field. */
  lemma EncodeMatches(p: KemParams, u: KVec, v: KPoly, ct: seq<byte>)
    requires |u| == p.K() && |ct| == p.CtBytes()
    ensures CtEncode(p, u, v) == ct <==> UMatches(p, u, ct, p.K()) && MatchesUpTo(v, CtV(p, ct), p.Dv(), 256)
  {
    hide EncodeV, EncodeU, MatchesUpTo;
    var n := p.K() * p.UBytes();
    var a, b := ct[..n], ct[n..];
    HeadAndTail(EncodeU(u, p.Du()), EncodeV(v, p.Dv()), ct);
    EncodeVMatches(v, p.Dv(), b);
    EncodeUBlocks(u, p.Du(), a);
    forall i | 0 <= i < |u|
      ensures EncodeV(u[i], p.Du()) == BlockOf(a, i, |u|, p.Du()) <==> MatchesUpTo(u[i], CtU(p, ct)[i], p.Du(), 256)
    {
      EncodeVMatches(u[i], p.Du(), BlockOf(a, i, |u|, p.Du()));
      SameBlock(p, ct, i);
    }
  }

  lemma SameBlock(p: KemParams, ct: seq<byte>, i: nat)
    requires |ct| == p.CtBytes() && i < p.K()
    ensures |ct[..p.K() * p.UBytes()]| == p.K() * (32 * p.Du())
    ensures CtU(p, ct)[i] == UnpackBits(BlockOf(ct[..p.K() * p.UBytes()], i, p.K(), p.Du()), p.Du(), 256)
  {
    hide UnpackBits;
    BlockIn(i, p.K(), p.UBytes());
    assert BlockOf(ct[..p.K() * p.UBytes()], i, p.K(), p.Du()) == Block(ct, i, p.UBytes());
  }

  // ------------------------------------------------------------ the comparison

  ghost predicate CanonicalVec(u: KVec) { forall i | 0 <= i < |u| :: InK(u[i], 0, KQ - 1) }

  lemma BlockFields(p: KemParams, ct: seq<byte>, i: nat)
    requires |ct| == p.CtBytes() && i < p.K()
    ensures i * p.UBytes() <= (i + 1) * p.UBytes() <= |ct| && |ct[i * p.UBytes()..(i + 1) * p.UBytes()]| == 32 * p.Du()
    ensures CtU(p, ct)[i] == UnpackBits(ct[i * p.UBytes()..(i + 1) * p.UBytes()], p.Du(), 256)
    ensures InK(CtU(p, ct)[i], 0, Levels(p.Du()) - 1)
  {
    hide UnpackBits;
    BlockIn(i, p.K(), p.UBytes());
    BlockEnds(i, p.UBytes());
  }

  lemma TailFields(p: KemParams, ct: seq<byte>)
    requires |ct| == p.CtBytes()
    ensures |ct[p.K() * p.UBytes()..]| == 32 * p.Dv() && InK(CtV(p, ct), 0, Levels(p.Dv()) - 1)
  {
    hide UnpackBits;
  }

  /** Every polynomial of u against the ciphertext. */
  method CompareU(p: KemParams, all: AllOk, u0: KVec, u1: KVec, ghost u: KVec, ct: seq<byte>, rng: Rng)
    requires |ct| == p.CtBytes() && |u| == p.K() && KSharesVec(u0, u1, u) && CanonicalVec(u)
    modifies all, rng
    ensures all.AllSet() == (old(all.AllSet()) && UMatches(p, u, ct, p.K()))
  {
    hide KShares, MatchesUpTo, UnpackBits, CtU, Tables, AllOk.AllSet, InK;
    var d := p.Du();
    var lo, w := CompressIntervals(d);
    for i := 0 to p.K()
      invariant all.AllSet() == (old(all.AllSet()) && UMatches(p, u, ct, i))
    {
      BlockFields(p, ct, i);
      var c := ReadFields(ct[i * p.UBytes()..(i + 1) * p.UBytes()], d);
      assert KShares(u0[i], u1[i], u[i]) && InK(u[i], 0, KQ - 1);
      ComparePoly(all, u0[i], u1[i], u[i], c, lo, w, d, rng);
    }
  }

  /** And v. */
  method CompareV(p: KemParams, all: AllOk, v0: KPoly, v1: KPoly, ghost v: KPoly, ct: seq<byte>, rng: Rng)
    requires |ct| == p.CtBytes() && KShares(v0, v1, v) && InK(v, 0, KQ - 1)
    modifies all, rng
    ensures all.AllSet() == (old(all.AllSet()) && MatchesUpTo(v, CtV(p, ct), p.Dv(), 256))
  {
    hide KShares, MatchesUpTo, UnpackBits, Tables, AllOk.AllSet, InK;
    TailFields(p, ct);
    var lo, w := CompressIntervals(p.Dv());
    var c := ReadFields(ct[p.K() * p.UBytes()..], p.Dv());
    ComparePoly(all, v0, v1, v, c, lo, w, p.Dv(), rng);
  }

  // ------------------------------------------------------------ the choice

  /** Four bytes as a word. */
  function WordOf(b: seq<byte>): (w: Word)
    requires |b| == 4
  {
    ByteBits(b[0]) + ByteBits(b[1]) + ByteBits(b[2]) + ByteBits(b[3])
  }

  lemma WordRoundTrip(b: seq<byte>)
    requires |b| == 4
    ensures WordBytes(WordOf(b)) == b
  {
    hide ByteBits, BitsByte;
    var w := WordOf(b);
    forall t | 0 <= t < 4 ensures BitsByte(w[8 * t..8 * t + 8]) == b[t] {
      assert w[8 * t..8 * t + 8] == ByteBits(b[t]);
      ByteRoundTrip(b[t]);
    }
  }

  /** The word of two shares of four bytes. */
  lemma SharedWord(a: seq<byte>, b: seq<byte>)
    requires |a| == |b| == 4
    ensures WordBytes(Share(WordOf(a), WordOf(b)).Unmask()) == XorBytes(a, b)
  {
    hide WordOf, WordBytes, XorByte;
    WordBytesXor(WordOf(a), WordOf(b));
    WordRoundTrip(a);
    WordRoundTrip(b);
  }

  /** x ^ (mask & (y ^ x)): y where the mask is set. */
  method SelectWord(msk: Share, ghost ok: bool, y: Share, x: Share, rng: Rng) returns (out: Word)
    requires forall j | 0 <= j < LANES :: msk.Bit(j) == ok
    modifies rng
    ensures out == if ok then y.Unmask() else x.Unmask()
  {
    var d := MXor(y, x);
    var r := rng.U32();
    var t := MAnd(msk, d, r);
    var k := MXor(x, t);
    out := Xor(k.s0, k.s1);
    SelectedWord(y, x, ok, d, t, k);
  }

  lemma SelectedWord(y: Share, x: Share, ok: bool, d: Share, t: Share, k: Share)
    requires forall j | 0 <= j < LANES :: d.Bit(j) == (y.Bit(j) != x.Bit(j))
    requires forall j | 0 <= j < LANES :: t.Bit(j) == (ok && d.Bit(j))
    requires forall j | 0 <= j < LANES :: k.Bit(j) == (x.Bit(j) != t.Bit(j))
    ensures k.Unmask() == if ok then y.Unmask() else x.Unmask()
  {
    var want := if ok then y else x;
    forall j | 0 <= j < LANES ensures k.Unmask()[j] == want.Unmask()[j] {
      assert k.Unmask()[j] == k.Bit(j) && want.Unmask()[j] == want.Bit(j);
    }
  }

  lemma XorSlices(a: seq<byte>, b: seq<byte>, i: nat, n: nat)
    requires |a| == |b| && i + n <= |a|
    ensures XorBytes(a[i..i + n], b[i..i + n]) == XorBytes(a, b)[i..i + n]
  {
    hide XorByte;
  }

  /** One word of the choice, as bytes. */
  method SelectFour(msk: Share, ghost ok: bool, g0: seq<byte>, g1: seq<byte>, kb0: seq<byte>, kb1: seq<byte>, i: nat,
      rng: Rng)
      returns (s: seq<byte>)
    requires (forall j | 0 <= j < LANES :: msk.Bit(j) == ok) && |g0| == |g1| == 64 && |kb0| == |kb1| == 32 && i < 8
    modifies rng
    ensures s == (if ok then XorBytes(g0, g1) else XorBytes(kb0, kb1))[4 * i..4 * i + 4]
  {
    hide WordOf, WordBytes, XorByte;
    var n := 4 * i;
    var y := Share(WordOf(g0[n..n + 4]), WordOf(g1[n..n + 4]));
    var x := Share(WordOf(kb0[n..n + 4]), WordOf(kb1[n..n + 4]));
    SharedWord(g0[n..n + 4], g1[n..n + 4]);
    SharedWord(kb0[n..n + 4], kb1[n..n + 4]);
    XorSlices(g0, g1, n, 4);
    XorSlices(kb0, kb1, n, 4);
    var out := SelectWord(msk, ok, y, x, rng);
    s := WordBytes(out);
  }

  /** K' when every test passed under a canonical key, K-bar otherwise; only the result is unmasked. */
  method SelectShared(all: AllOk, bad: bool, g0: seq<byte>, g1: seq<byte>, kb0: seq<byte>, kb1: seq<byte>, rng: Rng)
      returns (shared: seq<byte>)
    requires |g0| == |g1| == 64 && |kb0| == |kb1| == 32
    modifies rng
    ensures shared == if !bad && all.AllSet() then XorBytes(g0, g1)[..32] else XorBytes(kb0, kb1)
  {
    hide XorByte;
    ghost var good := !bad && all.AllSet();
    var ok := SecAllLanes(all.a, rng);
    var keep := Zeros(32)[0 := !bad];
    ok := MAndPub(ok, keep);
    var msk := MSpread(ok);
    ghost var want := if good then XorBytes(g0, g1) else XorBytes(kb0, kb1);
    shared := [];
    for i := 0 to 8
      invariant shared == want[..4 * i]
    {
      var s := SelectFour(msk, good, g0, g1, kb0, kb1, i, rng);
      assert want[..4 * i] + want[4 * i..4 * i + 4] == want[..4 * i + 4];
      shared := shared + s;
    }
  }

  // ------------------------------------------------------------ the message

  /** Shares of what decryption rounds. */
  method ResidualShares(p: KemParams, dk: seq<byte>, ct: seq<byte>, z: seq<int>, rng: Rng)
    returns (w0: KPoly, w1: KPoly)
    requires |dk| == p.K() * 384 && |ct| == p.CtBytes() && KZetaTable(z)
    modifies rng
    ensures KShares(w0, w1, Residual(p, dk, ct))
  {
    hide KZetaTable, KShares, Within, Inner, KCanon, Decode12, DecompressPoly, UnpackBits, CtU, Plus, Negated;
    var s := DecodeVec(dk, p.K());
    var s0, s1 := SplitSecret(s, rng);
    var u := ReadU(p, ct);
    var v := DecompressFields(ct[p.K() * p.UBytes()..], p.Dv());
    assert u == seq<KPoly>(p.K(), i requires 0 <= i < p.K() => DecompressPoly(CtU(p, ct)[i], p.Du()));
    w0, w1 := MaskedResidual(s0, s1, s, u, v, z);
  }

  lemma ResidualRange(p: KemParams, dk: seq<byte>, ct: seq<byte>)
    requires |dk| == p.K() * 384 && |ct| == p.CtBytes()
    ensures InK(Residual(p, dk, ct), 0, KQ - 1)
  {
    hide Inner, Decode12, DecompressPoly, UnpackBits, CtU, Plus, Negated;
    CanonRange(Plus(DecompressPoly(CtV(p, ct), p.Dv()), Negated(Inner(Decode12(dk, p.K()),
      seq<KPoly>(p.K(), i requires 0 <= i < p.K() => DecompressPoly(CtU(p, ct)[i], p.Du()))))));
  }

  lemma CanonRange(a: KPoly)
    ensures InK(KCanon(a), 0, KQ - 1)
  {
    forall i | 0 <= i < 256 ensures 0 <= a[i] % KQ < KQ { CongMod(a[i], KQ); }
  }

  ghost predicate WordsAre(mw: seq<Share>, w: KPoly) {
    |mw| == 8 && forall g | 0 <= g < 8 :: MessageWord(mw[g], w, g)
  }

  lemma WordsSpellMessage(mw: seq<Share>, words: seq<Word>, w: KPoly)
    requires WordsAre(mw, w) && InK(w, 0, KQ - 1) && |words| == 8 && forall g | 0 <= g < 8 :: words[g] == mw[g].Unmask()
    ensures FlatWords(words) == EncodeV(w, 1) && WordsSpell(mw, FlatWords(words))
  {
    hide WordBytes, FlatWords, EncodeV;
    forall g, j | 0 <= g < 8 && 0 <= j < 32 ensures words[g][j] == (833 <= w[32 * g + j] <= 2496) &&
      words[g][j] == mw[g].Bit(j) {
      assert MessageWord(mw[g], w, g);
      assert words[g][j] == mw[g].Bit(j);
    }
    MessageBytes(words, w);
    forall g, j | 0 <= g < 8 && 0 <= j < LANES ensures mw[g].Bit(j) == SpelledBit(FlatWords(words), 32 * g + j) {
      FlatBit(words, g, j);
    }
  }

  ghost predicate DecryptsTo(p: KemParams, dk: seq<byte>, ct: seq<byte>, m: seq<byte>) {
    |dk| == p.K() * 384 && |ct| == p.CtBytes() && m == Decrypt(p, dk, ct)
  }

  /** Decryption on shares: the message as shared words and as shared bytes. */
  method MaskedMessage(p: KemParams, dk: seq<byte>, ct: seq<byte>, ghost m: seq<byte>, z: seq<int>, rng: Rng)
      returns (mw: seq<Share>, m0: seq<byte>, m1: seq<byte>)
    requires KZetaTable(z) && DecryptsTo(p, dk, ct, m)
    modifies rng
    ensures |m0| == |m1| == 32 && XorBytes(m0, m1) == m
    ensures WordsSpell(mw, m)
  {
    hide KZetaTable, KShares, Residual, EncodeV, WordsSpell, FlatWords, MessageWord, XorByte;
    ghost var w := Residual(p, dk, ct);
    ResidualRange(p, dk, ct);
    var w0, w1 := ResidualShares(p, dk, ct, z, rng);
    mw := DecodeWords(w0, w1, w, rng);
    var a := seq<Word>(8, g requires 0 <= g < 8 && |mw| == 8 => mw[g].s0);
    var b := seq<Word>(8, g requires 0 <= g < 8 && |mw| == 8 => mw[g].s1);
    ghost var c := seq<Word>(8, g requires 0 <= g < 8 && |mw| == 8 => mw[g].Unmask());
    m0 := WordsToBytes(a);
    m1 := WordsToBytes(b);
    FlatXor(a, b, c);
    WordsSpellMessage(mw, c, w);
  }

  // ------------------------------------------------------------ the hashes

  /** G on shares: the public hash rides on share 0. */
  method MaskedDerive(m0: seq<byte>, m1: seq<byte>, h: seq<byte>, rng: Rng) returns (g0: seq<byte>, g1: seq<byte>)
    requires |m0| == |m1| && |h| == 32
    modifies rng
    ensures |g0| == |g1| == 64 && XorBytes(g0, g1) == Sha3_512(XorBytes(m0, m1) + h)
  {
    hide KeccakSponge.Sponge, XorByte;
    var zeroes := seq<byte>(32, _ => 0);
    XorPublicTail(m0, m1, h, zeroes);
    g0, g1 := MaskedKeccak.SpongeMasked(m0 + h, m1 + zeroes, 64, 72, 0x06, rng);
  }

  lemma XorTwice(z: byte, j: byte)
    ensures XorByte(XorByte(z, j), j) == z
  {
    var a, b := ByteBits(z), ByteBits(j);
    ByteRoundTrip(z);
    ToNatOfNat(Xor(a, b));
    assert ByteBits(XorByte(z, j)) == Xor(a, b);
    assert Xor(Xor(a, b), b) == a;
  }

  /** A fresh split of public-length bytes. */
  method SplitBytes(z: seq<byte>, rng: Rng) returns (j0: seq<byte>, j1: seq<byte>)
    modifies rng
    ensures |j0| == |j1| == |z| && XorBytes(j0, j1) == z
    ensures forall i | 0 <= i < |z| :: j1[i] == BitsByte(rng.stream(old(rng.pos) + i)[..8])
  {
    hide XorByte, BitsByte;
    j1 := [];
    for i := 0 to |z|
      invariant |j1| == i && rng.pos == old(rng.pos) + i
      invariant forall k | 0 <= k < i :: j1[k] == BitsByte(rng.stream(old(rng.pos) + k)[..8])
    {
      var r := rng.U32();
      j1 := j1 + [BitsByte(r[..8])];
    }
    j0 := seq<byte>(|z|, i requires 0 <= i < |z| && |j1| == |z| => XorByte(z[i], j1[i]));
    forall i | 0 <= i < |z| ensures XorBytes(j0, j1)[i] == z[i] { XorTwice(z[i], j1[i]); }
  }

  /** J on shares of z. */
  method MaskedReject(z: seq<byte>, ct: seq<byte>, rng: Rng) returns (kb0: seq<byte>, kb1: seq<byte>)
    modifies rng
    ensures |kb0| == |kb1| == 32 && XorBytes(kb0, kb1) == Shake(z + ct, 32)
  {
    hide KeccakSponge.Sponge, XorByte;
    var j0, j1 := SplitBytes(z, rng);
    var zeroes := seq<byte>(|ct|, _ => 0);
    XorPublicTail(j0, j1, ct, zeroes);
    kb0, kb1 := MaskedKeccak.SpongeMasked(j0 + ct, j1 + zeroes, 32, 136, 0x1f, rng);
  }

  // ------------------------------------------------------------ the re-encryption

  lemma CoinsSlice(g0: seq<byte>, g1: seq<byte>)
    requires |g0| == |g1| == 64
    ensures XorBytes(g0[32..], g1[32..]) == XorBytes(g0, g1)[32..]
  {
    hide XorByte;
  }

  /** Shares of the three noises. */
  method MaskedCoins(p: KemParams, c0: seq<byte>, c1: seq<byte>, ghost c: seq<byte>, rng: Rng)
      returns (r0: KVec, r1: KVec, e10: KVec, e11: KVec, e20: KPoly, e21: KPoly)
    requires |c0| == |c1| && XorBytes(c0, c1) == c
    modifies rng
    ensures KSharesVec(r0, r1, CoinsOf(p, c).r) && KSharesVec(e10, e11, CoinsOf(p, c).e1) &&
      KShares(e20, e21, CoinsOf(p, c).e2)
  {
    hide KSharesVec, KShares, Noise, NoiseVec, XorBytes;
    r0, r1 := MaskedNoiseVec(c0, c1, 0, p.K(), p.Eta1(), rng);
    e10, e11 := MaskedNoiseVec(c0, c1, p.K(), p.K(), 2, rng);
    e20, e21 := MaskedPrfCbd(c0, c1, 2 * p.K(), 2, rng);
  }

  /** Shares of both halves of the re-encryption, under ek's vector t and seed. */
  method MaskedReencrypt(p: KemParams, env: KemEnv, t: KVec, rho: seq<byte>, mw: seq<Share>, ghost m: seq<byte>,
      c0: seq<byte>, c1: seq<byte>, ghost c: seq<byte>, z: seq<int>, rng: Rng)
        returns (u0: KVec, u1: KVec, v0: KPoly, v1: KPoly)
    requires env.Valid() && |t| == p.K() && KVecWithin(t, 4095) && WordsSpell(mw, m) && |m| == 32 && |c0| == |c1| &&
      XorBytes(c0, c1) == c
    requires KZetaTable(z)
    modifies rng
    ensures KSharesVec(u0, u1, EncryptU(p, env, rho, CoinsOf(p, c).r, CoinsOf(p, c).e1))
    ensures KShares(v0, v1, EncryptV(t, CoinsOf(p, c).r, CoinsOf(p, c).e2, m))
  {
    hide KShares, KZetaTable, KVecWithin, KTransformed, CoinsOf, EncryptU, EncryptV, KemEnv.Valid, WordsSpell, XorBytes;
    ghost var k := CoinsOf(p, c);
    var r0, r1, e10, e11, e20, e21 := MaskedCoins(p, c0, c1, c, rng);
    KSharesRange(r0, r1, k.r);
    var r0h := KVecNtt(r0, z);
    var r1h := KVecNtt(r1, z);
    KTransformedLength(r0h, r0);
    KTransformedLength(r1h, r1);
    u0, u1 := MaskedU(p, env, rho, r0h, r1h, e10, e11, z, r0, r1, k.r, k.e1);
    v0, v1 := MaskedV(t, r0h, r1h, e20, e21, mw, z, rng, r0, r1, k.r, k.e2, m);
  }

  /** Both comparisons. */
  method MaskedCompare(p: KemParams, u0: KVec, u1: KVec, v0: KPoly, v1: KPoly, ghost u: KVec, ghost v: KPoly,
      ct: seq<byte>, rng: Rng)
      returns (all: AllOk)
    requires |ct| == p.CtBytes() && |u| == p.K() && KSharesVec(u0, u1, u) && CanonicalVec(u)
    requires KShares(v0, v1, v) && InK(v, 0, KQ - 1)
    modifies rng
    ensures fresh(all) && (all.AllSet() <==> CtEncode(p, u, v) == ct)
  {
    hide KSharesVec, KShares, MatchesUpTo, CanonicalVec, InK, AllOk.AllSet, UMatches, CtEncode, CtV;
    all := new AllOk();
    CompareU(p, all, u0, u1, u, ct, rng);
    CompareV(p, all, v0, v1, v, ct, rng);
    EncodeMatches(p, u, v, ct);
  }

  lemma EncryptCanonical(p: KemParams, env: KemEnv, rho: seq<byte>, t: KVec, c: Coins, m: seq<byte>)
    requires c.Shape(p) && |t| == p.K() && |m| == 32
    ensures CanonicalVec(EncryptU(p, env, rho, c.r, c.e1)) && InK(EncryptV(t, c.r, c.e2, m), 0, KQ - 1)
  {
    hide Inner, Plus, KCanon, FromMsg, MatrixRow, InK;
    forall i | 0 <= i < p.K() ensures InK(EncryptU(p, env, rho, c.r, c.e1)[i], 0, KQ - 1) {
      CanonRange(Plus(Inner(MatrixRow(p, env, rho, i), c.r), c.e1[i]));
    }
    CanonRange(Plus(Plus(Inner(t, c.r), c.e2), FromMsg(m)));
  }

  /** Does m under these coins re-encrypt to ct? Two answers: the key's public check, and the shared one. */
  method MaskedRecheck(p: KemParams, env: KemEnv, ek: seq<byte>, mw: seq<Share>, ghost m: seq<byte>, g0: seq<byte>,
      g1: seq<byte>, ct: seq<byte>, z: seq<int>, rng: Rng) returns (bad: bool, all: AllOk)
    requires env.Valid() && |ek| == p.EkBytes() && |m| == 32 && WordsSpell(mw, m) && |g0| == |g1| == 64 &&
      |ct| == p.CtBytes()
    requires KZetaTable(z)
    modifies rng
    ensures fresh(all) && (!bad && all.AllSet() <==> Reencrypts(p, env, ek, m, XorBytes(g0, g1)[32..], ct))
  {
    hide KSharesVec, KShares, KZetaTable, KVecWithin, CoinsOf, EncryptU, EncryptV, KemEnv.Valid, WordsSpell, XorBytes,
      CanonicalKey, CanonicalVec, InK, AllOk.AllSet, CtEncode, Decode12;
    var n := p.K() * 384;
    var t := DecodeVec(ek[..n], p.K());
    Decode12Positive(ek[..n], p.K());
    var canonical := CheckKey(t);
    bad := !canonical;
    CoinsSlice(g0, g1);
    ghost var c := XorBytes(g0, g1)[32..];
    var u0, u1, v0, v1 := MaskedReencrypt(p, env, t, ek[n..], mw, m, g0[32..], g1[32..], c, z, rng);
    ghost var k := CoinsOf(p, c);
    EncryptCanonical(p, env, ek[n..], t, k, m);
    all := MaskedCompare(p, u0, u1, v0, v1, EncryptU(p, env, ek[n..], k.r, k.e1), EncryptV(t, k.r, k.e2, m), ct, rng);
  }

  /** For every key, ciphertext and random stream, the masked decapsulation returns the plain one's
      shared secret: rejected ciphertexts and non-canonical keys included. */
  method DecapsMasked(p: KemParams, env: KemEnv, dk: seq<byte>, ct: seq<byte>, rng: Rng) returns (shared: seq<byte>)
    requires env.Valid() && |dk| == p.DkBytes() && |ct| == p.CtBytes()
    modifies rng
    ensures shared == Decaps(p, env, dk, ct)
  {
    hide KZetaTable, KemEnv.Valid, WordsSpell, XorBytes, Decrypt, KeccakSponge.Sponge, AllOk.AllSet, Reencrypts,
      DkSecret, DkEk, DkHash, DkZ;
    var z := BuildKZetas();
    ghost var m := Decrypt(p, DkSecret(p, dk), ct);
    var mw, m0, m1 := MaskedMessage(p, DkSecret(p, dk), ct, m, z, rng);
    var g0, g1 := MaskedDerive(m0, m1, DkHash(p, dk), rng);
    var kb0, kb1 := MaskedReject(DkZ(p, dk), ct, rng);
    var bad, all := MaskedRecheck(p, env, DkEk(p, dk), mw, m, g0, g1, ct, z, rng);
    shared := SelectShared(all, bad, g0, g1, kb0, kb1, rng);
  }
}
