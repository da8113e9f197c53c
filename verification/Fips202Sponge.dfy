/** The sponge of FIPS 202 on bit strings: domain bits, pad10*1, r-bit blocks. The byte sponge is this one, and
    between the two stands absorption block by block with the padding bytes written out. */
module Fips202Sponge {
  import opened ModArith
  import opened Bits
  import opened Keccak
  import opened KeccakSponge
  import opened Fips202

  // ------------------------------------------------------------ section 4 and section 5.1

  /** Bit p of the string S of a state, section 3.1.2. */
  predicate StringBit(s: State, p: nat)
    requires p < 1600
  {
    At(s, p / 64 % 5, p / 320, p % 64)
  }

  /** S XOR (P || 0^c). */
  function XorBlock(s: State, p: BitSeq): State
    requires |p| <= 1600
  {
    seq(25, i requires 0 <= i < 25 => XorBlockLane(s, p, i))
  }

  function XorBlockLane(s: State, p: BitSeq, i: nat): Lane64
    requires i < 25
  {
    seq(64, z requires 0 <= z < 64 => s[i][z] != (64 * i + z < |p| && p[64 * i + z]))
  }

  /** The blocks of r bits, absorbed in order. */
  function AbsorbBits(s: State, p: BitSeq, r: nat): State
    requires 0 < r <= 1600
    decreases |p|
  {
    if |p| < r then s else AbsorbBits(Rounds202(XorBlock(s, p[..r]), 24), p[r..], r)
  }

  /** d bits of output, r at a time. */
  function SqueezeBits(s: State, r: nat, d: nat): (z: BitSeq)
    requires 0 < r <= 1600
    ensures |z| == d
    decreases d
  {
    if d <= r then Trunc(s, d) else Trunc(s, r) + SqueezeBits(Rounds202(s, 24), r, d - r)
  }

  function Trunc(s: State, d: nat): (z: BitSeq)
    requires d <= 1600
    ensures |z| == d
  {
    seq(d, p requires 0 <= p < d => StringBit(s, p))
  }

  /** pad10*1 for a string of m bits: 1, as many 0 as fill the block, 1. */
  function Pad101(r: nat, m: nat): BitSeq
    requires 0 < r
  {
    CongMod(-(m + 2), r);
    [true] + Zeros(-(m + 2) % r) + [true]
  }

  /** SPONGE[Keccak-p[1600, 24], pad10*1, r](n, d). */
  function SpongeBits(n: BitSeq, r: nat, d: nat): (z: BitSeq)
    requires 0 < r <= 1600
  {
    SqueezeBits(AbsorbBits(ZeroState(), n + Pad101(r, |n|), r), r, d)
  }

  // ------------------------------------------------------------ bytes as bits, section B.1

  function BitsOf(m: seq<byte>): (b: BitSeq)
    ensures |b| == 8 * |m|
  {
    seq(8 * |m|, i requires 0 <= i < 8 * |m| => ByteBits(m[i / 8])[i % 8])
  }

  /** A pad byte carries its domain bits and the first 1 of the padding. */
  predicate PadCarries(pad: byte, suffix: BitSeq) {
    |suffix| <= 6 && ByteBits(pad) == suffix + [true] + Zeros(7 - |suffix|)
  }

  // ------------------------------------------------------------ padding bytes

  /** The k bytes that fill a block: the pad byte, zeroes, and 1 in the last bit. */
  function PadTail(k: nat, pad: byte): (t: seq<byte>)
    requires 0 < k
    ensures |t| == k
  {
    if k == 1 then [XorByte(pad, 128)] else [pad] + NoBytes(k - 2) + [128]
  }

  /** The bytes that complete a message of n bytes. */
  function PadBytes(n: nat, rate: nat, pad: byte): (t: seq<byte>)
    requires ValidRate(rate)
    ensures |t| == rate - n % rate
  {
    PadTail(rate - n % rate, pad)
  }

  function NoBytes(n: nat): (z: seq<byte>)
    ensures |z| == n && forall i | 0 <= i < n :: z[i] == 0
  {
    seq(n, _ => 0)
  }

  /** Whole blocks, XORed in and permuted one after the other. */
  function AbsorbBlocks(s: State, p: seq<byte>, rate: nat): State
    requires ValidRate(rate)
    decreases |p|
  {
    if |p| < rate then s else AbsorbBlocks(KeccakF(XorRun(s, 0, p[..rate])), p[rate..], rate)
  }

  // ------------------------------------------------------------ absorbing, block by block

  lemma {:induction false} RunOfZeroes(s: State, pos: nat, n: nat)
    requires pos + n <= 200
    ensures XorRun(s, pos, NoBytes(n)) == s
    decreases n
  {
    hide XorByteAt;
    if n > 0 {
      ZeroByteAt(s, pos);
      assert NoBytes(n)[1..] == NoBytes(n - 1);
      RunOfZeroes(s, pos + 1, n - 1);
    }
  }

  lemma ZeroByteAt(s: State, j: nat)
    requires j < 200
    ensures XorByteAt(s, j, 0) == s
  {
    ZeroLane(j % 8);
    hide ByteLane;
    assert Xor64(s[j / 8], ByteLane(0, j % 8)) == s[j / 8];
  }

  lemma ZeroLane(k: nat)
    requires k < 8
    ensures ByteLane(0, k) == Zeros(64)
  {
    ZeroBits(8);
    hide OfNat;
  }

  lemma TwoBytesAt(s: State, j: nat, a: byte, b: byte)
    requires j < 200
    ensures XorByteAt(XorByteAt(s, j, a), j, b) == XorByteAt(s, j, XorByte(a, b))
  {
    var w, k := j / 8, j % 8;
    LanesXor(k, a, b);
    XorAssoc(s[w], ByteLane(a, k), ByteLane(b, k));
    hide ByteLane, Xor64, XorByte;
  }

  lemma LanesXor(k: nat, a: byte, b: byte)
    requires k < 8
    ensures Xor64(ByteLane(a, k), ByteLane(b, k)) == ByteLane(XorByte(a, b), k)
  {
    XorByteBits(a, b);
    hide ByteBits, XorByte;
    var x, y, z := ByteLane(a, k), ByteLane(b, k), ByteLane(XorByte(a, b), k);
    forall i | 0 <= i < 64 ensures Xor64(x, y)[i] == z[i] { }
  }

  lemma XorByteBits(a: byte, b: byte)
    ensures ByteBits(XorByte(a, b)) == Xor(ByteBits(a), ByteBits(b))
  {
    ToNatOfNat(Xor(ByteBits(a), ByteBits(b)));
  }

  /** The two bytes finalisation XORs in are the padding bytes of the block. */
  lemma LastBlock(s: State, pos: nat, rate: nat, pad: byte)
    requires ValidRate(rate) && pos < rate
    ensures XorRun(s, pos, PadTail(rate - pos, pad)) == XorByteAt(XorByteAt(s, pos, pad), rate - 1, 128)
  {
    hide XorByteAt, XorRun, XorByte;
    var k := rate - pos;
    if k == 1 {
      LaneRunOne(s, pos, XorByte(pad, 128));
      TwoBytesAt(s, pos, pad, 128);
    } else {
      LaneRunOne(s, pos, pad);
      var t := XorByteAt(s, pos, pad);
      XorRunSplit(s, pos, [pad], NoBytes(k - 2) + [128]);
      XorRunSplit(t, pos + 1, NoBytes(k - 2), [128]);
      RunOfZeroes(t, pos + 1, k - 2);
      LaneRunOne(t, rate - 1, 128);
      assert [pad] + NoBytes(k - 2) + [128] == [pad] + (NoBytes(k - 2) + [128]);
    }
  }

  lemma {:induction false} AbsorbsFrom(s: State, m: seq<byte>, rate: nat, pad: byte)
    requires ValidRate(rate)
    ensures Pad(FeedAll(Cursor(s, 0), m, rate), rate, pad) == AbsorbBlocks(s, m + PadBytes(|m|, rate, pad), rate)
    decreases |m|
  {
    hide KeccakF, XorRun, XorByteAt, Feed, FeedAll, PadBytes, PadTail, AbsorbBlocks;
    var t := PadBytes(|m|, rate, pad);
    if |m| < rate {
      SmallTail(|m|, rate, pad);
      FeedBlock(Cursor(s, 0), m, rate);
      XorRunSplit(s, 0, m, t);
      LastBlock(XorRun(s, 0, m), |m|, rate, pad);
      OneBlock(s, m + t, rate);
    } else {
      var head, rest := m[..rate], m[rate..];
      assert m == head + rest;
      FeedBlock(Cursor(s, 0), head, rate);
      FeedSplit(Cursor(s, 0), head, rest, rate);
      SameTail(|m|, rate, pad);
      var next := KeccakF(XorRun(s, 0, head));
      AbsorbsFrom(next, rest, rate, pad);
      NextBlocks(s, m + t, rate, head, rest + t);
    }
  }

  lemma SmallTail(n: nat, rate: nat, pad: byte)
    requires ValidRate(rate) && n < rate
    ensures PadBytes(n, rate, pad) == PadTail(rate - n, pad)
  {
    DivModUnique(n, rate, 0, n);
  }

  lemma SameTail(n: nat, rate: nat, pad: byte)
    requires ValidRate(rate) && rate <= n
    ensures PadBytes(n - rate, rate, pad) == PadBytes(n, rate, pad)
  {
    hide XorByte;
    CongIntro(n - rate, n, rate, -1);
    CongSameMod(n - rate, n, rate);
  }

  lemma OneBlock(s: State, p: seq<byte>, rate: nat)
    requires ValidRate(rate) && |p| == rate
    ensures AbsorbBlocks(s, p, rate) == KeccakF(XorRun(s, 0, p))
  {
    hide KeccakF, XorRun;
    assert p[..rate] == p && p[rate..] == [];
  }

  lemma NextBlocks(s: State, p: seq<byte>, rate: nat, head: seq<byte>, rest: seq<byte>)
    requires ValidRate(rate) && p == head + rest && |head| == rate
    ensures AbsorbBlocks(s, p, rate) == AbsorbBlocks(KeccakF(XorRun(s, 0, head)), rest, rate)
  {
    hide KeccakF, XorRun;
    assert p[..rate] == head && p[rate..] == rest;
  }

  /** Absorbing a message is absorbing the blocks of the message with its padding bytes. */
  lemma AbsorbedBlocks(m: seq<byte>, rate: nat, pad: byte)
    requires ValidRate(rate)
    ensures Absorbed(m, rate, pad) == AbsorbBlocks(ZeroState(), m + PadBytes(|m|, rate, pad), rate)
  {
    hide AbsorbBlocks, FeedAll, Pad, PadBytes;
    AbsorbsFrom(ZeroState(), m, rate, pad);
  }

  // ------------------------------------------------------------ the same blocks, as bits

  /** The byte a run puts at position j of the state, 0 outside the run. */
  function RunByte(m: seq<byte>, pos: nat, j: nat): byte {
    if pos <= j < pos + |m| then m[j - pos] else 0
  }

  /** A run of bytes flips the bits that are set in the byte at their place. */
  lemma {:induction false} RunBits(s: State, pos: nat, m: seq<byte>, i: nat, z: nat)
    requires pos + |m| <= 200 && i < 25 && z < 64
    ensures XorRun(s, pos, m)[i][z] == (s[i][z] != ByteBits(RunByte(m, pos, 8 * i + z / 8))[z % 8])
    decreases |m|
  {
    hide XorByteAt, ByteBits;
    NoBit(z % 8);
    if m != [] {
      hide RunByte;
      var t := XorByteAt(s, pos, m[0]);
      RunBits(t, pos + 1, m[1..], i, z);
      ByteBitsAt(s, pos, m[0], i, z);
      RunStep(m, pos, 8 * i + z / 8, z % 8);
    }
  }

  lemma NoBit(k: nat)
    requires k < 8
    ensures !ByteBits(0)[k]
  {
    ZeroBits(8);
    hide OfNat;
  }

  lemma RunStep(m: seq<byte>, pos: nat, j: nat, k: nat)
    requires m != [] && k < 8
    ensures ByteBits(RunByte(m, pos, j))[k]
         == ((pos == j && ByteBits(m[0])[k]) != ByteBits(RunByte(m[1..], pos + 1, j))[k])
  {
    hide ByteBits;
    NoBit(k);
  }

  lemma ByteBitsAt(s: State, j: nat, b: byte, i: nat, z: nat)
    requires j < 200 && i < 25 && z < 64
    ensures XorByteAt(s, j, b)[i][z] == (s[i][z] != (j == 8 * i + z / 8 && ByteBits(b)[z % 8]))
  {
    hide ByteBits;
    var w, k := j / 8, j % 8;
    assert j == 8 * w + k;
    if i == w {
      assert ByteLane(b, k)[z] == (8 * k <= z < 8 * k + 8 && ByteBits(b)[z - 8 * k]);
      if 8 * k <= z < 8 * k + 8 { assert z / 8 == k && z % 8 == z - 8 * k; }
    }
  }

  lemma BlockIs(s: State, p: seq<byte>)
    requires |p| <= 200
    ensures XorRun(s, 0, p) == XorBlock(s, BitsOf(p))
  {
    hide XorRun, ByteBits;
    var a, b := XorRun(s, 0, p), XorBlock(s, BitsOf(p));
    forall i | 0 <= i < 25 ensures a[i] == b[i] {
      forall z | 0 <= z < 64 ensures a[i][z] == b[i][z] { BlockBit(s, p, i, z); }
    }
  }

  lemma BlockBit(s: State, p: seq<byte>, i: nat, z: nat)
    requires |p| <= 200 && i < 25 && z < 64
    ensures XorRun(s, 0, p)[i][z] == XorBlockLane(s, BitsOf(p), i)[z]
  {
    hide XorRun, ByteBits, RunByte, BitsOf;
    RunBits(s, 0, p, i, z);
    RunBit(p, i, z);
  }

  lemma RunBit(p: seq<byte>, i: nat, z: nat)
    requires z < 64
    ensures ByteBits(RunByte(p, 0, 8 * i + z / 8))[z % 8] == (64 * i + z < 8 * |p| && BitsOf(p)[64 * i + z])
  {
    hide ByteBits;
    NoBit(z % 8);
    assert (64 * i + z) / 8 == 8 * i + z / 8 && (64 * i + z) % 8 == z % 8;
  }

  lemma {:induction false} BlocksAre(s: State, p: seq<byte>, rate: nat)
    requires ValidRate(rate)
    ensures AbsorbBlocks(s, p, rate) == AbsorbBits(s, BitsOf(p), 8 * rate)
    decreases |p|
  {
    hide KeccakF, XorRun, XorBlock, BitsOf, Rounds202;
    if |p| >= rate {
      var t := XorRun(s, 0, p[..rate]);
      BlockIs(s, p[..rate]);
      KeccakIs(t);
      BitsSplit(p, rate);
      BlocksAre(KeccakF(t), p[rate..], rate);
    }
  }

  lemma BitsSplit(p: seq<byte>, k: nat)
    requires k <= |p|
    ensures BitsOf(p)[..8 * k] == BitsOf(p[..k]) && BitsOf(p)[8 * k..] == BitsOf(p[k..])
  {
    hide ByteBits;
    var q := BitsOf(p);
    forall i | 0 <= i < 8 * |p[k..]| ensures q[8 * k..][i] == BitsOf(p[k..])[i] {
      assert (8 * k + i) / 8 == k + i / 8 && (8 * k + i) % 8 == i % 8;
    }
    assert q[8 * k..] == BitsOf(p[k..]);
    assert q[..8 * k] == BitsOf(p[..k]);
  }

  lemma BitsAppend(a: seq<byte>, b: seq<byte>)
    ensures BitsOf(a + b) == BitsOf(a) + BitsOf(b)
  {
    hide BitsOf;
    BitsSplit(a + b, |a|);
    assert (a + b)[..|a|] == a && (a + b)[|a|..] == b;
    assert BitsOf(a + b) == BitsOf(a + b)[..8 * |a|] + BitsOf(a + b)[8 * |a|..];
  }

  // ------------------------------------------------------------ the padding, as bits

  lemma BitsOne(b: byte)
    ensures BitsOf([b]) == ByteBits(b)
  {
    hide ByteBits;
  }

  lemma BitsNone(n: nat)
    ensures BitsOf(NoBytes(n)) == Zeros(8 * n)
  {
    ZeroBits(8);
    hide OfNat;
  }

  lemma LastBit()
    ensures ByteBits(128) == Zeros(7) + [true]
  {
    assert Pow2(7) == 128;
    ZeroBits(7);
    LastBitOf(Zeros(7));
  }

  lemma {:induction false} LastBitOf(z: BitSeq)
    requires z == Zeros(7)
    ensures ByteBits(128) == z + [true]
  {
    var w := OfNat(128, 8);
    forall k: nat | k < 8 ensures w[k] == (z + [true])[k] {
      OfNatBit(128, 8, k);
      TopBitOnly(k);
    }
  }

  lemma TopBitOnly(k: nat)
    requires k < 8
    ensures BitOf(128, k) == (k == 7)
  {
    Pow2Values();
    assert Pow2(7) == 2 * Pow2(6);
    assert Pow2(0) == 1;
  }

  /** The padding bytes are the domain bits and pad10*1. */
  lemma PadIs(n: nat, rate: nat, pad: byte, suffix: BitSeq)
    requires ValidRate(rate) && PadCarries(pad, suffix)
    ensures BitsOf(PadBytes(n, rate, pad)) == suffix + Pad101(8 * rate, 8 * n + |suffix|)
  {
    hide ByteBits, XorByte, BitsOf;
    LastBit();
    var k := rate - n % rate;
    var zeroes := 8 * k - |suffix| - 2;
    PadLength(n, rate, |suffix|);
    if k == 1 {
      XorByteBits(pad, 128);
      BitsOne(XorByte(pad, 128));
      assert Xor(ByteBits(pad), ByteBits(128)) == suffix + ([true] + Zeros(zeroes) + [true]);
    } else {
      BitsOne(pad);
      BitsOne(128);
      BitsNone(k - 2);
      BitsAppend([pad], NoBytes(k - 2));
      BitsAppend([pad] + NoBytes(k - 2), [128]);
      ManyZeroes(suffix, k - 2);
    }
  }

  lemma ManyZeroes(suffix: BitSeq, k: nat)
    requires |suffix| <= 6
    ensures suffix + [true] + Zeros(7 - |suffix|) + Zeros(8 * k) + (Zeros(7) + [true])
         == suffix + ([true] + Zeros(8 * k + 14 - |suffix|) + [true])
  {
    ZeroesAppend(7 - |suffix|, 8 * k);
    ZeroesAppend(7 - |suffix| + 8 * k, 7);
  }

  lemma ZeroesAppend(a: nat, b: nat)
    ensures Zeros(a) + Zeros(b) == Zeros(a + b)
  {
  }

  lemma PadLength(n: nat, rate: nat, d: nat)
    requires ValidRate(rate) && d <= 6
    ensures -(8 * n + d + 2) % (8 * rate) == 8 * (rate - n % rate) - d - 2
  {
    CongMod(n, rate);
    var x, y := -(8 * n + d + 2), 8 * (rate - n % rate) - d - 2;
    var q := n / rate;
    assert n == rate * q + n % rate;
    Eightfold(rate, q);
    CongIntro(y, x, 8 * rate, q + 1);
    CongCanon(y, x, 8 * rate);
  }

  lemma Eightfold(rate: int, q: int)
    ensures (q + 1) * (8 * rate) == 8 * (rate * q) + 8 * rate
  {
  }

  // ------------------------------------------------------------ the output, as bits

  lemma StateBits(s: State, j: nat, k: nat)
    requires j < 200 && k < 8
    ensures ByteBits(StateByte(s, j))[k] == StringBit(s, 8 * j + k)
  {
    var w, c := j / 8, j % 8;
    var l := s[w];
    ToNatOfNat(l[8 * c..8 * c + 8]);
    var p := 8 * j + k;
    assert p / 64 == w && p % 64 == 8 * c + k && p / 320 == w / 5;
    LaneAt(s, w, 8 * c + k);
  }

  lemma TruncIs(s: State, rate: nat, len: nat)
    requires ValidRate(rate) && len <= rate
    ensures BitsOf(Stream(s, rate, 0, len)) == Trunc(s, 8 * len)
  {
    hide ByteBits, StringBit, StateByte, KeccakF;
    var m, t := Stream(s, rate, 0, len), Trunc(s, 8 * len);
    forall i | 0 <= i < 8 * len ensures BitsOf(m)[i] == t[i] {
      DivModUnique(i / 8, rate, 0, i / 8);
      StateBits(s, i / 8, i % 8);
      assert 8 * (i / 8) + i % 8 == i;
    }
  }

  lemma StreamNext(s: State, rate: nat, len: nat)
    requires ValidRate(rate) && rate <= len
    ensures Stream(s, rate, 0, len) == Stream(s, rate, 0, rate) + Stream(KeccakF(s), rate, 0, len - rate)
  {
    hide StateByte, KeccakF, StreamByte;
    var a, b, c := Stream(s, rate, 0, len), Stream(s, rate, 0, rate), Stream(KeccakF(s), rate, 0, len - rate);
    forall i | 0 <= i < len ensures a[i] == (b + c)[i] {
      if i >= rate { LaterByte(s, rate, i); }
    }
  }

  lemma LaterByte(s: State, rate: nat, i: nat)
    requires ValidRate(rate) && rate <= i
    ensures StreamByte(s, rate, i) == StreamByte(KeccakF(s), rate, i - rate)
  {
    hide StateByte, KeccakF;
    RateParts(i - rate, rate);
    var q, r := (i - rate) / rate, (i - rate) % rate;
    assert i - rate == q * rate + r;
    DivModUnique(i, rate, q + 1, r);
  }

  lemma {:induction false} SqueezeIs(s: State, rate: nat, len: nat)
    requires ValidRate(rate)
    ensures BitsOf(Stream(s, rate, 0, len)) == SqueezeBits(s, 8 * rate, 8 * len)
    decreases len
  {
    hide KeccakF, Stream, BitsOf, Trunc, Rounds202;
    if len <= rate {
      TruncIs(s, rate, len);
    } else {
      TruncIs(s, rate, rate);
      StreamNext(s, rate, len);
      KeccakIs(s);
      SqueezeIs(KeccakF(s), rate, len - rate);
      BitsAppend(Stream(s, rate, 0, rate), Stream(KeccakF(s), rate, 0, len - rate));
    }
  }

  // ------------------------------------------------------------ the hash functions

  /** The byte sponge is SPONGE on the bits of the message and its domain bits. */
  lemma SpongeIs(m: seq<byte>, rate: nat, pad: byte, suffix: BitSeq, len: nat)
    requires ValidRate(rate) && PadCarries(pad, suffix)
    ensures BitsOf(Sponge(m, rate, pad, len)) == SpongeBits(BitsOf(m) + suffix, 8 * rate, 8 * len)
  {
    hide AbsorbBits, SqueezeBits, Absorbed, Stream, BitsOf, PadBytes, Pad101, AbsorbBlocks, PadCarries;
    var t := PadBytes(|m|, rate, pad);
    AbsorbedBlocks(m, rate, pad);
    BlocksAre(ZeroState(), m + t, rate);
    BitsAppend(m, t);
    PadIs(|m|, rate, pad, suffix);
    assert BitsOf(m) + suffix + Pad101(8 * rate, 8 * |m| + |suffix|)
        == BitsOf(m) + (suffix + Pad101(8 * rate, 8 * |m| + |suffix|));
    SqueezeIs(Absorbed(m, rate, pad), rate, len);
  }

  lemma {:induction false} PadCarriesThese()
    ensures PadCarries(0x06, [false, true]) && PadCarries(0x1f, [true, true, true, true])
  {
    SmallBits(0x06, [false, true, true, false, false, false, false, false]);
    SmallBits(0x1f, [true, true, true, true, true, false, false, false]);
  }

  lemma SmallBits(n: byte, w: BitSeq)
    requires |w| == 8 && ToNat(w) == n
    ensures ByteBits(n) == w
  {
    ToNatOfNat(w);
  }

  /** The hash functions of section 6: SHAKE appends 1111, SHA-3 appends 01, and both take a capacity of twice the
      security or digest length. */
  lemma HashesAre(m: seq<byte>, len: nat, n: nat)
    requires n == 28 || n == 32 || n == 48 || n == 64
    ensures BitsOf(Shake256(m, len)) == SpongeBits(BitsOf(m) + [true, true, true, true], 1600 - 512, 8 * len)
    ensures BitsOf(Sponge(m, 168, 0x1f, len)) == SpongeBits(BitsOf(m) + [true, true, true, true], 1600 - 256, 8 * len)
    ensures BitsOf(Sponge(m, 200 - 2 * n, 0x06, n)) == SpongeBits(BitsOf(m) + [false, true], 1600 - 2 * (8 * n), 8 * n)
  {
    hide Sponge, SpongeBits, BitsOf, PadCarries;
    PadCarriesThese();
    SpongeIs(m, 136, 0x1f, [true, true, true, true], len);
    SpongeIs(m, 168, 0x1f, [true, true, true, true], len);
    SpongeIs(m, 200 - 2 * n, 0x06, [false, true], n);
    assert 8 * (200 - 2 * n) == 1600 - 2 * (8 * n);
  }
}
