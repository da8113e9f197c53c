/** The first-order masking gadgets: a secret word is the XOR of two shares, a secret
    number is bitsliced over 26 such words, 32 numbers (lanes) at a time. Every gadget is
    specified by what its result unmasks to, whatever the random stream was. */
module MaskedGadgets {
  import opened ModArith
  import opened Bits

  const LANES: nat := 32
  const MAX_BITS: nat := 26

  /** The randomness source: an arbitrary stream of 32-bit words, read in order. */
  class Rng {
    const stream: nat -> Word
    var pos: nat

    constructor (stream: nat -> Word)
      ensures this.stream == stream && pos == 0
    {
      this.stream := stream;
      pos := 0;
    }

    method U32() returns (r: Word)
      modifies this
      ensures r == stream(old(pos)) && pos == old(pos) + 1
    {
      r := stream(pos);
      pos := pos + 1;
    }
  }

  /** A modulus and the two's-complement width its comparisons work in. */
  datatype Modulus = Modulus(q: nat, bits: nat) {
    predicate Valid() {
      0 < q && 2 <= bits <= MAX_BITS && 2 * q < Pow2(bits - 1)
    }
  }

  const KEM: Modulus := Modulus(3329, 14)
  const DSA: Modulus := Modulus(8380417, 25)

  lemma ModuliValid()
    ensures KEM.Valid() && DSA.Valid()
    ensures Pow2(KEM.bits - 1) == 8192 && Pow2(DSA.bits - 1) == 16777216
  {
    Pow2Values();
  }

  // ------------------------------------------------------------ one word in two shares

  datatype Share = Share(s0: Word, s1: Word) {
    /** The secret bit of lane j. */
    predicate Bit(j: nat) requires j < LANES { s0[j] != s1[j] }
    function Unmask(): Word { Xor(s0, s1) }
  }

  const ZERO: Share := Share(Zeros(32), Zeros(32))

  function MXor(x: Share, y: Share): (z: Share)
    ensures z.Unmask() == Xor(x.Unmask(), y.Unmask())
    ensures forall j | 0 <= j < LANES :: z.Bit(j) == (x.Bit(j) != y.Bit(j))
  {
    Share(Xor(x.s0, y.s0), Xor(x.s1, y.s1))
  }

  /** Trichina's AND: the four partial products are gathered into one share behind r. */
  function MAnd(x: Share, y: Share, r: Word): (z: Share)
    ensures z.s0 == r
    ensures forall j | 0 <= j < LANES :: z.Bit(j) == (x.Bit(j) && y.Bit(j))
  {
    var t := Xor(r, And(x.s0, y.s0));
    var t1 := Xor(t, And(x.s0, y.s1));
    var t2 := Xor(t1, And(x.s1, y.s0));
    var t3 := Xor(t2, And(x.s1, y.s1));
    Share(r, t3)
  }

  /** The fresh word is one share and hides the product in the other: each share, whatever the operands, takes every
      value for exactly one r. */
  lemma MAndFresh(x: Share, y: Share, r: Word, w: Word)
    ensures MAnd(x, y, r).s1 == Xor(r, And(x.Unmask(), y.Unmask()))
    ensures MAnd(x, y, r).s1 == w <==> r == Xor(w, And(x.Unmask(), y.Unmask()))
  {
    var z, p := MAnd(x, y, r), And(x.Unmask(), y.Unmask());
    forall j | 0 <= j < LANES ensures z.s1[j] == (r[j] != p[j]) { assert z.Bit(j) == (x.Bit(j) && y.Bit(j)); }
    assert z.s1 == Xor(r, p);
    if z.s1 == w { assert r == Xor(w, p); }
    if r == Xor(w, p) { assert z.s1 == w; }
  }

  /** x xor a public word: into share 0 only. */
  function MXorPub(x: Share, c: Word): (z: Share)
    ensures forall j | 0 <= j < LANES :: z.Bit(j) == (x.Bit(j) != c[j])
  {
    Share(Xor(x.s0, c), x.s1)
  }

  function MAndPub(x: Share, c: Word): (z: Share)
    ensures forall j | 0 <= j < LANES :: z.Bit(j) == (x.Bit(j) && c[j])
  {
    Share(And(x.s0, c), And(x.s1, c))
  }

  function MShr(x: Share, k: nat): (z: Share)
    ensures forall j | 0 <= j < LANES :: z.Bit(j) == (j + k < LANES && x.Bit(j + k))
  {
    Share(Shr(x.s0, k), Shr(x.s1, k))
  }

  /** Bit 0 spread over the whole word, share by share: 0 - (x & 1). */
  function MSpread(x: Share): (z: Share)
    ensures forall j | 0 <= j < LANES :: z.Bit(j) == x.Bit(0)
  {
    Share(if x.s0[0] then Ones(32) else Zeros(32), if x.s1[0] then Ones(32) else Zeros(32))
  }

  function MNot(x: Share): (z: Share)
    ensures forall j | 0 <= j < LANES :: z.Bit(j) == !x.Bit(j)
  {
    MXorPub(x, Ones(32))
  }

  // ------------------------------------------------------------ 32 bitsliced numbers

  /** The number in lane j whose bits are the secrets of words 0..n-1. */
  function Lane(w0: seq<Word>, w1: seq<Word>, j: nat, n: nat): (v: nat)
    requires j < LANES && n <= |w0| && n <= |w1|
    decreases n
  {
    if n == 0 then 0 else Lane(w0, w1, j, n - 1) + B2I(w0[n - 1][j] != w1[n - 1][j]) * Pow2(n - 1)
  }

  lemma {:induction false} LaneBound(w0: seq<Word>, w1: seq<Word>, j: nat, n: nat)
    requires j < LANES && n <= |w0| && n <= |w1|
    ensures Lane(w0, w1, j, n) < Pow2(n)
    decreases n
  {
    if n > 0 { LaneBound(w0, w1, j, n - 1); }
  }

  /** Lane depends only on the words it reads. */
  lemma {:induction false} LaneSame(w0: seq<Word>, w1: seq<Word>, v0: seq<Word>, v1: seq<Word>, j: nat, n: nat)
    requires j < LANES && n <= |w0| && n <= |w1| && n <= |v0| && n <= |v1|
    requires forall i | 0 <= i < n :: (w0[i][j] != w1[i][j]) == (v0[i][j] != v1[i][j])
    ensures Lane(w0, w1, j, n) == Lane(v0, v1, j, n)
    decreases n
  {
    if n > 0 { LaneSame(w0, w1, v0, v1, j, n - 1); }
  }

  lemma {:induction false} LaneZeroTop(w0: seq<Word>, w1: seq<Word>, j: nat, n: nat, m: nat)
    requires j < LANES && n <= m <= |w0| && m <= |w1|
    requires forall i | n <= i < m :: w0[i][j] == w1[i][j]
    ensures Lane(w0, w1, j, m) == Lane(w0, w1, j, n)
    decreases m
  {
    if n < m { LaneZeroTop(w0, w1, j, n, m - 1); }
  }

  /** The top bit of an n-bit lane says whether the number reaches half the range. */
  lemma LaneTopBit(w0: seq<Word>, w1: seq<Word>, j: nat, n: nat)
    requires j < LANES && 0 < n <= |w0| && n <= |w1|
    ensures (w0[n - 1][j] != w1[n - 1][j]) == (Lane(w0, w1, j, n) >= Pow2(n - 1))
  {
    LaneBound(w0, w1, j, n - 1);
  }

  datatype Bs = Bs(w0: seq<Word>, w1: seq<Word>) {
    predicate Valid() { |w0| == MAX_BITS && |w1| == MAX_BITS }

    function At(i: nat): Share requires Valid() && i < MAX_BITS { Share(w0[i], w1[i]) }

    /** Lane j read from the low n words. */
    function Low(j: nat, n: nat): nat requires Valid() && j < LANES && n <= MAX_BITS { Lane(w0, w1, j, n) }

    function Value(j: nat): nat requires Valid() && j < LANES { Low(j, MAX_BITS) }

    /** Every lane fits in n bits: the words above are zero. */
    predicate Fits(n: nat) {
      Valid() && n <= MAX_BITS && forall i, j | n <= i < MAX_BITS && 0 <= j < LANES :: w0[i][j] == w1[i][j]
    }
  }

  lemma FitsLow(b: Bs, j: nat, n: nat)
    requires b.Fits(n) && j < LANES
    ensures b.Value(j) == b.Low(j, n) < Pow2(n)
  {
    LaneZeroTop(b.w0, b.w1, j, n, MAX_BITS);
    LaneBound(b.w0, b.w1, j, n);
  }

  /** Words 0..n-1 as given, the rest cleared. */
  function Padded(w: seq<Word>): (r: seq<Word>)
    requires |w| <= MAX_BITS
    ensures |r| == MAX_BITS && r[..|w|] == w && forall i | |w| <= i < MAX_BITS :: r[i] == Zeros(32)
  {
    w + seq(MAX_BITS - |w|, _ => Zeros(32))
  }

  lemma PaddedFits(w0: seq<Word>, w1: seq<Word>, n: nat)
    requires |w0| == |w1| == n <= MAX_BITS
    ensures Bs(Padded(w0), Padded(w1)).Fits(n)
  {
  }

  lemma PaddedLane(w0: seq<Word>, w1: seq<Word>, n: nat, j: nat)
    requires |w0| == |w1| == n <= MAX_BITS && j < LANES
    ensures Bs(Padded(w0), Padded(w1)).Value(j) == Lane(w0, w1, j, n)
  {
    var b := Bs(Padded(w0), Padded(w1));
    PaddedFits(w0, w1, n);
    FitsLow(b, j, n);
    LaneSame(b.w0, b.w1, w0, w1, j, n);
  }

  // ------------------------------------------------------------ bitslicing

  /** One share's 32 values, transposed: bit j of word b is bit b of v[j]. */
  method Bitslice(v: seq<int>, bits: nat) returns (out: seq<Word>)
    requires |v| == LANES && bits <= MAX_BITS
    ensures |out| == bits
    ensures forall b, j | 0 <= b < bits && 0 <= j < LANES :: out[b][j] == BitOf(v[j], b)
  {
    out := [];
    for b := 0 to bits
      invariant |out| == b
      invariant forall i, j | 0 <= i < b && 0 <= j < LANES :: out[i][j] == BitOf(v[j], i)
    {
      var w: Word := Zeros(32);
      for j := 0 to LANES
        invariant forall i | 0 <= i < j :: w[i] == BitOf(v[i], b)
      {
        w := w[j := BitOf(v[j], b)];
      }
      out := out + [w];
    }
  }

  lemma {:induction false} BitsliceLane(w: seq<Word>, m0: seq<Word>, m1: seq<Word>, v: int, j: nat, n: nat)
    requires j < LANES && n <= |w| && n <= |m0| && n <= |m1|
    requires forall b | 0 <= b < n :: w[b][j] == BitOf(v, b)
    requires forall b | 0 <= b < n :: (m0[b][j] != m1[b][j]) == w[b][j]
    ensures Lane(m0, m1, j, n) == v % Pow2(n)
    decreases n
  {
    if n > 0 {
      BitsliceLane(w, m0, m1, v, j, n - 1);
      ModPow2Step(v, n - 1);
    }
  }

  /** Boolean shares of one arithmetic share's values, behind fresh randomness. */
  method BooleanOfShare(v: seq<int>, bits: nat, rng: Rng) returns (out: Bs)
    requires |v| == LANES && bits <= MAX_BITS
    modifies rng
    ensures out.Fits(bits)
    ensures forall j | 0 <= j < LANES :: out.Value(j) == v[j] % Pow2(bits)
    ensures rng.pos == old(rng.pos) + bits && forall i | 0 <= i < bits :: out.w1[i] == rng.stream(old(rng.pos) + i)
  {
    var w := Bitslice(v, bits);
    var m0: seq<Word>, m1: seq<Word> := [], [];
    for b := 0 to bits
      invariant |m0| == |m1| == b
      invariant forall i, j | 0 <= i < b && 0 <= j < LANES :: (m0[i][j] != m1[i][j]) == w[i][j]
      invariant rng.pos == old(rng.pos) + b && forall i | 0 <= i < b :: m1[i] == rng.stream(old(rng.pos) + i)
    {
      var r := rng.U32();
      m0, m1 := m0 + [Xor(w[b], r)], m1 + [r];
    }
    out := Bs(Padded(m0), Padded(m1));
    PaddedFits(m0, m1, bits);
    forall j | 0 <= j < LANES
      ensures out.Value(j) == v[j] % Pow2(bits)
    {
      BitsliceLane(w, m0, m1, v[j], j, bits);
      PaddedLane(m0, m1, bits, j);
    }
  }

  // ------------------------------------------------------------ addition

  predicate Majority(x: bool, y: bool, c: bool) { (x && y) || (c && (x != y)) }

  /** One full adder: appending the sum bit and keeping the carry preserves the running sum. */
  lemma AddStep(z0: seq<Word>, z1: seq<Word>, a: Word, b: Word, j: nat, c: bool, xb: bool, yb: bool, s: nat)
    requires j < LANES && |z0| == |z1|
    requires Lane(z0, z1, j, |z0|) + B2I(c) * Pow2(|z0|) == s
    requires (a[j] != b[j]) == ((xb != yb) != c)
    ensures Lane(z0 + [a], z1 + [b], j, |z0| + 1) + B2I(Majority(xb, yb, c)) * Pow2(|z0| + 1)
      == s + B2I(xb) * Pow2(|z0|) + B2I(yb) * Pow2(|z0|)
  {
    LaneSame(z0 + [a], z1 + [b], z0, z1, j, |z0|);
  }

  /** The running state of a ripple-carry addition after i words: X and Y are the words'
      secret bits, `carry` the carries into word i. */
  ghost predicate Adding(z0: seq<Word>, z1: seq<Word>, carry: BitSeq, x: seq<BitSeq>, y: seq<BitSeq>, i: nat) {
    |z0| == |z1| == i <= |x| && i <= |y| && |carry| == LANES
    && (forall b | 0 <= b < |x| :: |x[b]| == LANES) && (forall b | 0 <= b < |y| :: |y[b]| == LANES)
    && forall j | 0 <= j < LANES ::
      Lane(z0, z1, j, i) + B2I(carry[j]) * Pow2(i) == Column(x, j, i) + Column(y, j, i)
  }

  /** The number whose bits are bit j of words 0..n-1. */
  function Column(x: seq<BitSeq>, j: nat, n: nat): nat
    requires n <= |x| && forall b | 0 <= b < |x| :: j < |x[b]|
    decreases n
  {
    if n == 0 then 0 else Column(x, j, n - 1) + B2I(x[n - 1][j]) * Pow2(n - 1)
  }

  function Carries(x: BitSeq, y: BitSeq, c: BitSeq): (r: BitSeq)
    requires |x| == |y| == |c| == LANES
    ensures |r| == LANES && forall j | 0 <= j < LANES :: r[j] == Majority(x[j], y[j], c[j])
  {
    seq(LANES, j requires 0 <= j < LANES => Majority(x[j], y[j], c[j]))
  }

  lemma AddingStart(x: seq<BitSeq>, y: seq<BitSeq>)
    requires forall b | 0 <= b < |x| :: |x[b]| == LANES
    requires forall b | 0 <= b < |y| :: |y[b]| == LANES
    ensures Adding([], [], Zeros(32), x, y, 0)
  {
  }

  lemma AddingStep(z0: seq<Word>, z1: seq<Word>, carry: BitSeq, x: seq<BitSeq>, y: seq<BitSeq>, i: nat, a: Word,
      b: Word)
    requires Adding(z0, z1, carry, x, y, i) && i < |x| && i < |y|
    requires forall j | 0 <= j < LANES :: (a[j] != b[j]) == ((x[i][j] != y[i][j]) != carry[j])
    ensures Adding(z0 + [a], z1 + [b], Carries(x[i], y[i], carry), x, y, i + 1)
  {
    forall j | 0 <= j < LANES
      ensures Lane(z0 + [a], z1 + [b], j, i + 1) + B2I(Carries(x[i], y[i], carry)[j]) * Pow2(i + 1)
        == Column(x, j, i + 1) + Column(y, j, i + 1)
    {
      AddStep(z0, z1, a, b, j, carry[j], x[i][j], y[i][j], Column(x, j, i) + Column(y, j, i));
    }
  }

  lemma AddingLane(z0: seq<Word>, z1: seq<Word>, carry: BitSeq, x: seq<BitSeq>, y: seq<BitSeq>, bits: nat, j: nat)
    requires Adding(z0, z1, carry, x, y, bits) && j < LANES
    ensures Lane(z0, z1, j, bits) == (Column(x, j, bits) + Column(y, j, bits)) % Pow2(bits)
  {
    LaneBound(z0, z1, j, bits);
    DivModUnique(Column(x, j, bits) + Column(y, j, bits), Pow2(bits), B2I(carry[j]), Lane(z0, z1, j, bits));
  }

  /** The secret bits of the low n words of x. */
  function Secrets(x: Bs, n: nat): (r: seq<BitSeq>)
    requires x.Valid() && n <= MAX_BITS
    ensures |r| == n && forall i | 0 <= i < n :: |r[i]| == LANES &&
                          forall j | 0 <= j < LANES :: r[i][j] == x.At(i).Bit(j)
  {
    seq(n, i requires 0 <= i < n => x.At(i).Unmask())
  }

  lemma {:induction false} SecretsColumn(x: Bs, n: nat, j: nat, m: nat)
    requires x.Valid() && m <= n <= MAX_BITS && j < LANES
    ensures Column(Secrets(x, n), j, m) == x.Low(j, m)
    decreases m
  {
    if m > 0 {
      SecretsColumn(x, n, j, m - 1);
      assert Secrets(x, n)[m - 1][j] == x.At(m - 1).Bit(j);
    }
  }

  /** The finished sum in one lane, x and y being columns of numbers u and v. */
  lemma AddingDone(z0: seq<Word>, z1: seq<Word>, carry: BitSeq, x: seq<BitSeq>, y: seq<BitSeq>, bits: nat, j: nat,
      u: nat, v: nat)
    requires Adding(z0, z1, carry, x, y, bits) && bits <= MAX_BITS && j < LANES
    requires Column(x, j, bits) == u && Column(y, j, bits) == v
    ensures Bs(Padded(z0), Padded(z1)).Value(j) == (u + v) % Pow2(bits)
  {
    hide Lane, Column;
    AddingLane(z0, z1, carry, x, y, bits, j);
    PaddedLane(z0, z1, bits, j);
  }

  /** Share 0 of the carry into word i: the two fresh words of the step before. */
  function CarryMask(rng: Rng, from: nat, i: nat): Word {
    if i == 0 then Zeros(32) else Xor(rng.stream(from + 2 * i - 2), rng.stream(from + 2 * i - 1))
  }

  /** Share 0 of a sum, word by word: share 0 of the operands behind the carry's fresh words. */
  ghost predicate SumMasks(z0: seq<Word>, x: Bs, y: Bs, rng: Rng, from: nat, n: nat) {
    x.Valid() && y.Valid() && n <= |z0| && n <= MAX_BITS
    && forall i | 0 <= i < n :: z0[i] == Xor(Xor(x.w0[i], y.w0[i]), CarryMask(rng, from, i))
  }

  lemma SumMasksNone(z0: seq<Word>, x: Bs, y: Bs, rng: Rng, from: nat)
    requires x.Valid() && y.Valid()
    ensures SumMasks(z0, x, y, rng, from, 0)
  {
  }

  lemma SumMasksNext(z0: seq<Word>, x: Bs, y: Bs, rng: Rng, from: nat, n: nat, w: Word)
    requires SumMasks(z0, x, y, rng, from, n) && n == |z0| < MAX_BITS
    requires w == Xor(Xor(x.w0[n], y.w0[n]), CarryMask(rng, from, n))
    ensures SumMasks(z0 + [w], x, y, rng, from, n + 1)
  {
    hide CarryMask;
  }

  lemma SumMasksPadded(z0: seq<Word>, x: Bs, y: Bs, rng: Rng, from: nat, n: nat)
    requires SumMasks(z0, x, y, rng, from, n) && |z0| == n
    ensures SumMasks(Padded(z0), x, y, rng, from, n)
  {
    hide CarryMask;
  }

  /** The carry out of one word: x y xor c (x xor y), p being x xor y. */
  method NextCarry(x: Share, y: Share, p: Share, c: Share, rng: Rng) returns (k: Share)
    requires p == MXor(x, y)
    modifies rng
    ensures rng.pos == old(rng.pos) + 2 && k.s0 == Xor(rng.stream(old(rng.pos)), rng.stream(old(rng.pos) + 1))
    ensures forall j | 0 <= j < LANES :: k.Bit(j) == Majority(x.Bit(j), y.Bit(j), c.Bit(j))
  {
    var r1 := rng.U32();
    var g := MAnd(x, y, r1);
    var r2 := rng.U32();
    var h := MAnd(c, p, r2);
    k := MXor(g, h);
  }

  /** z = x + y mod 2^bits in every lane: ripple carry over Boolean shares. */
  method SecAdd(x: Bs, y: Bs, bits: nat, rng: Rng) returns (z: Bs)
    requires x.Valid() && y.Valid() && bits <= MAX_BITS
    modifies rng
    ensures z.Fits(bits)
    ensures forall j | 0 <= j < LANES :: z.Value(j) == (x.Low(j, bits) + y.Low(j, bits)) % Pow2(bits)
    ensures SumMasks(z.w0, x, y, rng, old(rng.pos), bits)
  {
    hide Column, Lane, SumMasks;
    var z0: seq<Word>, z1: seq<Word> := [], [];
    var c := ZERO;
    ghost var carry: BitSeq, xs, ys := Zeros(32), Secrets(x, bits), Secrets(y, bits);
    AddingStart(xs, ys);
    SumMasksNone(z0, x, y, rng, old(rng.pos));
    for i := 0 to bits
      invariant Adding(z0, z1, carry, xs, ys, i)
      invariant i < bits ==> forall j | 0 <= j < LANES :: c.Bit(j) == carry[j]
      invariant i < bits ==> rng.pos == old(rng.pos) + 2 * i && c.s0 == CarryMask(rng, old(rng.pos), i)
      invariant SumMasks(z0, x, y, rng, old(rng.pos), i)
    {
      var p := MXor(x.At(i), y.At(i));
      var zi := MXor(p, c);
      AddingStep(z0, z1, carry, xs, ys, i, zi.s0, zi.s1);
      SumMasksNext(z0, x, y, rng, old(rng.pos), i, zi.s0);
      z0, z1 := z0 + [zi.s0], z1 + [zi.s1];
      carry := Carries(xs[i], ys[i], carry);
      if i + 1 < bits { c := NextCarry(x.At(i), y.At(i), p, c, rng); }
    }
    z := Bs(Padded(z0), Padded(z1));
    SumMasksPadded(z0, x, y, rng, old(rng.pos), bits);
    PaddedFits(z0, z1, bits);
    forall j | 0 <= j < LANES
      ensures z.Value(j) == (x.Low(j, bits) + y.Low(j, bits)) % Pow2(bits)
    {
      SecretsColumn(x, bits, j, bits);
      SecretsColumn(y, bits, j, bits);
      AddingDone(z0, z1, carry, xs, ys, bits, j, x.Low(j, bits), y.Low(j, bits));
    }
  }

  /** z = x + c mod 2^bits in every lane, for public constants. */
  method SecAddPublic(x: Bs, c: seq<int>, bits: nat, rng: Rng) returns (z: Bs)
    requires x.Valid() && |c| == LANES && bits <= MAX_BITS
    modifies rng
    ensures z.Fits(bits)
    ensures forall j | 0 <= j < LANES :: z.Value(j) == (x.Low(j, bits) + c[j] % Pow2(bits)) % Pow2(bits)
  {
    hide Column, Lane;
    var cw := Bitslice(c, bits);
    var z0: seq<Word>, z1: seq<Word> := [], [];
    var k := ZERO;
    ghost var carry: BitSeq, xs := Zeros(32), Secrets(x, bits);
    AddingStart(xs, cw);
    for i := 0 to bits
      invariant Adding(z0, z1, carry, xs, cw, i)
      invariant i < bits ==> forall j | 0 <= j < LANES :: k.Bit(j) == carry[j]
    {
      var p := MXorPub(x.At(i), cw[i]);
      var zi := MXor(p, k);
      AddingStep(z0, z1, carry, xs, cw, i, zi.s0, zi.s1);
      z0, z1 := z0 + [zi.s0], z1 + [zi.s1];
      carry := Carries(xs[i], cw[i], carry);
      if i + 1 < bits {
        var g := MAndPub(x.At(i), cw[i]);
        var r := rng.U32();
        var h := MAnd(k, p, r);
        k := MXor(g, h);
      }
    }
    z := Bs(Padded(z0), Padded(z1));
    PaddedFits(z0, z1, bits);
    forall j | 0 <= j < LANES
      ensures z.Value(j) == (x.Low(j, bits) + c[j] % Pow2(bits)) % Pow2(bits)
    {
      SecretsColumn(x, bits, j, bits);
      BitsliceColumn(cw, c[j], j, bits);
      AddingDone(z0, z1, carry, xs, cw, bits, j, x.Low(j, bits), c[j] % Pow2(bits));
    }
  }

  lemma {:induction false} BitsliceColumn(w: seq<Word>, v: int, j: nat, n: nat)
    requires j < LANES && n <= |w|
    requires forall b | 0 <= b < n :: w[b][j] == BitOf(v, b)
    ensures Column(w, j, n) == v % Pow2(n)
    decreases n
  {
    if n > 0 {
      BitsliceColumn(w, v, j, n - 1);
      ModPow2Step(v, n - 1);
    }
  }

  // ------------------------------------------------------------ comparison and selection

  /** Every lane of x is below 2^(bits-1), so x - c cannot wrap past its sign bit. */
  lemma SubtractSign(x: nat, c: nat, bits: nat)
    requires 0 < bits && x < Pow2(bits - 1) && c < Pow2(bits - 1)
    ensures (x + (Pow2(bits) - c) % Pow2(bits)) % Pow2(bits) >= Pow2(bits - 1) <==> x < c
  {
    var p := Pow2(bits);
    if c == 0 {
      DivModUnique(p, p, 1, 0);
      DivModUnique(x, p, 0, x);
    } else {
      DivModUnique(p - c, p, 0, p - c);
      if x < c {
        DivModUnique(x + (p - c), p, 0, x + p - c);
      } else {
        DivModUnique(x + (p - c), p, 1, x - c);
      }
    }
  }

  lemma SignBit(d: Bs, j: nat, bits: nat, x: nat, c: nat)
    requires 0 < bits && d.Fits(bits) && j < LANES && x < Pow2(bits - 1) && c < Pow2(bits - 1)
    requires d.Value(j) == (x + (Pow2(bits) - c) % Pow2(bits)) % Pow2(bits)
    ensures d.At(bits - 1).Bit(j) == (x < c)
  {
    FitsLow(d, j, bits);
    LaneTopBit(d.w0, d.w1, j, bits);
    SubtractSign(x, c, bits);
  }

  /** Lane j of s answers x_j < c_j: the sign of x - c in two's complement. */
  method SecLess(x: Bs, c: seq<int>, rng: Rng, M: Modulus) returns (s: Share)
    requires M.Valid() && x.Valid() && |c| == LANES
    requires forall j | 0 <= j < LANES :: x.Low(j, M.bits) < Pow2(M.bits - 1) && 0 <= c[j] < Pow2(M.bits - 1)
    modifies rng
    ensures forall j | 0 <= j < LANES :: s.Bit(j) == (x.Low(j, M.bits) < c[j])
  {
    hide Lane, Pow2;
    var neg := seq(LANES, j requires 0 <= j < LANES => Pow2(M.bits) - c[j]);
    var d := SecAddPublic(x, neg, M.bits, rng);
    s := d.At(M.bits - 1);
    forall j | 0 <= j < LANES
      ensures s.Bit(j) == (x.Low(j, M.bits) < c[j])
    {
      SignBit(d, j, M.bits, x.Low(j, M.bits), c[j]);
    }
  }

  method SecLessConst(x: Bs, c: int, rng: Rng, M: Modulus) returns (s: Share)
    requires M.Valid() && x.Valid() && 0 <= c < Pow2(M.bits - 1)
    requires forall j | 0 <= j < LANES :: x.Low(j, M.bits) < Pow2(M.bits - 1)
    modifies rng
    ensures forall j | 0 <= j < LANES :: s.Bit(j) == (x.Low(j, M.bits) < c)
  {
    s := SecLess(x, seq(LANES, _ => c), rng, M);
  }

  /** Share 0 of a selection: share 0 of y behind one fresh word each. */
  ghost predicate SelectMasks(z0: seq<Word>, y: Bs, rng: Rng, from: nat, n: nat) {
    y.Valid() && n <= |z0| && n <= MAX_BITS && forall i | 0 <= i < n :: z0[i] == Xor(y.w0[i], rng.stream(from + i))
  }

  lemma SelectMasksNone(z0: seq<Word>, y: Bs, rng: Rng, from: nat)
    requires y.Valid()
    ensures SelectMasks(z0, y, rng, from, 0)
  {
  }

  lemma SelectMasksNext(z0: seq<Word>, y: Bs, rng: Rng, from: nat, n: nat, w: Word)
    requires SelectMasks(z0, y, rng, from, n) && n == |z0| < MAX_BITS && w == Xor(y.w0[n], rng.stream(from + n))
    ensures SelectMasks(z0 + [w], y, rng, from, n + 1)
  {
  }

  lemma SelectMasksPadded(z0: seq<Word>, y: Bs, rng: Rng, from: nat, n: nat)
    requires SelectMasks(z0, y, rng, from, n) && |z0| == n
    ensures SelectMasks(Padded(z0), y, rng, from, n)
  {
  }

  /** z = s ? x : y in every lane. */
  method SecSelect(s: Share, x: Bs, y: Bs, bits: nat, rng: Rng) returns (z: Bs)
    requires x.Valid() && y.Valid() && bits <= MAX_BITS
    modifies rng
    ensures z.Fits(bits)
    ensures forall j | 0 <= j < LANES :: z.Value(j) == if s.Bit(j) then x.Low(j, bits) else y.Low(j, bits)
    ensures SelectMasks(z.w0, y, rng, old(rng.pos), bits)
  {
    hide Lane, SelectMasks;
    var z0: seq<Word>, z1: seq<Word> := [], [];
    SelectMasksNone(z0, y, rng, rng.pos);
    for b := 0 to bits
      invariant |z0| == |z1| == b
      invariant forall i, j | 0 <= i < b && 0 <= j < LANES ::
        (z0[i][j] != z1[i][j]) == if s.Bit(j) then x.At(i).Bit(j) else y.At(i).Bit(j)
      invariant rng.pos == old(rng.pos) + b
      invariant SelectMasks(z0, y, rng, old(rng.pos), b)
    {
      var d := MXor(x.At(b), y.At(b));
      var r := rng.U32();
      var t := MAnd(s, d, r);
      var zb := MXor(y.At(b), t);
      SelectMasksNext(z0, y, rng, old(rng.pos), b, zb.s0);
      z0, z1 := z0 + [zb.s0], z1 + [zb.s1];
    }
    z := Bs(Padded(z0), Padded(z1));
    SelectMasksPadded(z0, y, rng, old(rng.pos), bits);
    PaddedFits(z0, z1, bits);
    SelectedLanes(z0, z1, s, x, y, bits);
  }

  /** Bit columns that choose by s are lanes that choose by s. */
  lemma SelectedLanes(z0: seq<Word>, z1: seq<Word>, s: Share, x: Bs, y: Bs, bits: nat)
    requires x.Valid() && y.Valid() && |z0| == |z1| == bits <= MAX_BITS
    requires forall i, j | 0 <= i < bits && 0 <= j < LANES ::
      (z0[i][j] != z1[i][j]) == if s.Bit(j) then x.At(i).Bit(j) else y.At(i).Bit(j)
    ensures forall j | 0 <= j < LANES ::
      Bs(Padded(z0), Padded(z1)).Value(j) == if s.Bit(j) then x.Low(j, bits) else y.Low(j, bits)
  {
    hide Lane;
    forall j | 0 <= j < LANES
      ensures Bs(Padded(z0), Padded(z1)).Value(j) == if s.Bit(j) then x.Low(j, bits) else y.Low(j, bits)
    {
      PaddedLane(z0, z1, bits, j);
      if s.Bit(j) {
        LaneSame(z0, z1, x.w0, x.w1, j, bits);
      } else {
        LaneSame(z0, z1, y.w0, y.w1, j, bits);
      }
    }
  }

  lemma WrapSubtract(t: nat, q: nat, bits: nat)
    requires 0 < bits && 0 < q < Pow2(bits) && t < 2 * q && t < Pow2(bits)
    ensures t >= q ==> (t + (Pow2(bits) - q) % Pow2(bits)) % Pow2(bits) == t - q
  {
    DivModUnique(Pow2(bits) - q, Pow2(bits), 0, Pow2(bits) - q);
    if t >= q { DivModUnique(t + (Pow2(bits) - q), Pow2(bits), 1, t - q); }
  }

  /** T mod q for T in [0, 2q): T - q when T >= q. */
  method SecReduceQ(t: Bs, rng: Rng, M: Modulus) returns (out: Bs)
    requires M.Valid() && t.Valid()
    requires forall j | 0 <= j < LANES :: t.Low(j, M.bits) < 2 * M.q
    modifies rng
    ensures out.Fits(M.bits)
    ensures forall j | 0 <= j < LANES :: out.Value(j) == t.Low(j, M.bits) % M.q < M.q
  {
    hide Lane, Pow2;
    Pow2Double(M.bits);
    var negq := seq(LANES, _ => Pow2(M.bits) - M.q);
    var tm := SecAddPublic(t, negq, M.bits, rng);
    var s := SecLessConst(t, M.q, rng, M);
    out := SecSelect(s, t, tm, M.bits, rng);
    forall j | 0 <= j < LANES
      ensures out.Value(j) == t.Low(j, M.bits) % M.q < M.q
    {
      var v := t.Low(j, M.bits);
      FitsLow(tm, j, M.bits);
      WrapSubtract(v, M.q, M.bits);
      ModBelowTwice(v, M.q);
    }
  }

  lemma ModBelowTwice(v: nat, q: nat)
    requires 0 < q && v < 2 * q
    ensures v % q == (if v < q then v else v - q) < q
  {
    if v < q { DivModUnique(v, q, 0, v); } else { DivModUnique(v, q, 1, v - q); }
  }
}
