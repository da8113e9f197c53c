/** Masked SamplePolyCBD: 32 centred-binomial coefficients from two shares of the PRF output. */
module MaskedNoise {
  import opened ModArith
  import opened Bits
  import opened BitCursor
  import opened MaskedGadgets
  import opened MaskedConversions
  import opened MlKemScheme

  /** 32 stream bits, `step` apart, of one share. */
  method GatherBits(buf: seq<byte>, from: nat, step: nat) returns (w: Word)
    requires (from + 31 * step) / 8 < |buf|
    ensures forall j | 0 <= j < LANES :: StreamAt(buf, from + step * j) == w[j]
  {
    w := Zeros(32);
    for j := 0 to LANES
      invariant forall i | 0 <= i < j :: StreamAt(buf, from + step * i) == w[i]
    {
      GatherFits(buf, from, step, j);
      w := w[j := StreamBit(buf, from + step * j)];
    }
  }

  /** A stream bit, or clear past the end. */
  predicate StreamAt(buf: seq<byte>, pos: nat) { pos / 8 < |buf| && StreamBit(buf, pos) }

  lemma GatherFits(buf: seq<byte>, from: nat, step: nat, j: nat)
    requires (from + 31 * step) / 8 < |buf| && j < LANES
    ensures (from + step * j) / 8 < |buf|
  {
    MulMono(j, 31, step);
  }

  /** A number of one bit in every lane. */
  function OneBit(s: Share): (b: Bs)
  {
    Bs(Padded([s.s0]), Padded([s.s1]))
  }

  lemma OneBitLow(s: Share, j: nat, n: nat)
    requires j < LANES && 1 <= n <= MAX_BITS
    ensures OneBit(s).Fits(1) && OneBit(s).Low(j, n) == B2I(s.Bit(j))
  {
    PaddedFits([s.s0], [s.s1], 1);
    PaddedLane([s.s0], [s.s1], 1, j);
    assert Lane([s.s0], [s.s1], j, 1) == B2I(s.Bit(j)) by { assert Pow2(0) == 1; }
    FitsTwice(OneBit(s), j, 1, n);
  }

  lemma FitsTwice(b: Bs, j: nat, m: nat, n: nat)
    requires b.Fits(m) && j < LANES && m <= n <= MAX_BITS
    ensures b.Low(j, n) == b.Low(j, m) == b.Value(j) < Pow2(m)
  {
    FitsLow(b, j, m);
    FitsLow(b, j, n);
  }

  /** One lane's count so far, in two bits. */
  ghost predicate CountedAt(acc: Bs, buf: seq<byte>, eta: nat, lane0: nat, skip: nat, n: nat, j: nat)
    requires j < LANES && acc.Valid()
  {
    (n > 0 ==> (2 * eta * (lane0 + j) + skip + n - 1) / 8 < |buf|)
    && acc.Low(j, 2) == OnesIn(buf, 2 * eta * (lane0 + j) + skip, n)
  }

  ghost predicate Counted(acc: Bs, buf: seq<byte>, eta: nat, lane0: nat, skip: nat, n: nat) {
    acc.Fits(2) && forall j | 0 <= j < LANES :: CountedAt(acc, buf, eta, lane0, skip, n, j)
  }

  lemma CountedStart(buf: seq<byte>, eta: nat, lane0: nat, skip: nat)
    ensures Counted(Bs(Padded([]), Padded([])), buf, eta, lane0, skip, 0)
  {
    PaddedFits([], [], 0);
    var b := Bs(Padded([]), Padded([]));
    forall j | 0 <= j < LANES ensures b.Low(j, 2) == 0 {
      FitsTwice(b, j, 0, 2);
      assert Pow2(0) == 1;
    }
  }

  lemma CountFits(eta: nat, lane0: nat, j: nat, k: nat)
    requires (eta == 2 || eta == 3) && lane0 + 32 <= 256 && j < LANES && k < 2 * eta
    ensures (2 * eta * (lane0 + j) + k) / 8 < 64 * eta
  {
    NoiseFits(eta, lane0 + j);
  }

  /** One more bit per lane. */
  method CountBit(acc: Bs, b0: seq<byte>, b1: seq<byte>, eta: nat, lane0: nat, skip: nat, n: nat, rng: Rng)
    returns (next: Bs)
    requires (eta == 2 || eta == 3) && |b0| == |b1| == 64 * eta && lane0 + 32 <= 256 && skip + n < 2 * eta && n < eta
    requires Counted(acc, XorBytes(b0, b1), eta, lane0, skip, n)
    modifies rng
    ensures Counted(next, XorBytes(b0, b1), eta, lane0, skip, n + 1)
  {
    hide Lane, Pow2, OnesIn, StreamAt;
    var from := 2 * eta * lane0 + skip + n;
    GatherRoom(eta, lane0, skip + n);
    var w0 := GatherBits(b0, from, 2 * eta);
    var w1 := GatherBits(b1, from, 2 * eta);
    var bit := OneBit(Share(w0, w1));
    OneBitLow(Share(w0, w1), 0, 2);
    next := SecAdd(acc, bit, 2, rng);
    ghost var x, m := XorBytes(b0, b1), n + 1;
    forall j | 0 <= j < LANES ensures CountedAt(next, x, eta, lane0, skip, m, j) {
      hide CountedAt;
      assert CountedAt(acc, x, eta, lane0, skip, n, j);
      OneBitLow(Share(w0, w1), j, 2);
      FitsTwice(next, j, 2, 2);
      CountLane(b0, b1, eta, lane0, skip, n, j, acc, next, w0[j], w1[j]);
    }
  }

  lemma CountLane(b0: seq<byte>, b1: seq<byte>, eta: nat, lane0: nat, skip: nat, n: nat, j: nat, acc: Bs, next: Bs,
      u: bool, v: bool)
    requires (eta == 2 || eta == 3) && |b0| == |b1| == 64 * eta && lane0 + 32 <= 256 && skip + n < 2 * eta &&
      n < eta && j < LANES
    requires acc.Valid() && next.Valid() && CountedAt(acc, XorBytes(b0, b1), eta, lane0, skip, n, j)
    requires u == StreamAt(b0, 2 * eta * lane0 + skip + n + 2 * eta * j)
    requires v == StreamAt(b1, 2 * eta * lane0 + skip + n + 2 * eta * j)
    requires next.Low(j, 2) == (acc.Low(j, 2) + B2I(u != v)) % Pow2(2)
    ensures CountedAt(next, XorBytes(b0, b1), eta, lane0, skip, n + 1, j)
  {
    hide Lane, Pow2, OnesIn, StreamAt, XorBytes;
    LanePlace(eta, lane0, j, skip + n);
    CountFits(eta, lane0, j, skip + n);
    CountScalar(b0, b1, 2 * eta * (lane0 + j) + skip, n, acc.Low(j, 2), next.Low(j, 2), u, v);
  }

  lemma CountScalar(b0: seq<byte>, b1: seq<byte>, at: nat, n: nat, c: nat, d: nat, u: bool, v: bool)
    requires |b0| == |b1| && n < 3 && (at + n) / 8 < |b0|
    requires c == OnesIn(XorBytes(b0, b1), at, n) && u == StreamAt(b0, at + n) && v == StreamAt(b1, at + n)
    requires d == (c + B2I(u != v)) % Pow2(2)
    ensures d == OnesIn(XorBytes(b0, b1), at, n + 1)
  {
    hide Lane, Pow2, OnesIn, StreamAt;
    StreamXor(b0, b1, at + n);
    OnesNext(XorBytes(b0, b1), at, n, c, B2I(u != v), d);
  }

  lemma OnesNext(x: seq<byte>, at: nat, n: nat, c: nat, bit: nat, d: nat)
    requires n < 3 && (at + n) / 8 < |x| && (n > 0 ==> (at + n - 1) / 8 < |x|)
    requires c == OnesIn(x, at, n) && bit == B2I(StreamBit(x, at + n)) && d == (c + bit) % Pow2(2)
    ensures d == OnesIn(x, at, n + 1)
  {
    hide Pow2, OnesIn, StreamBit;
    OnesStep(x, at, n);
    NoWrapFour(c + bit);
  }

  lemma GatherRoom(eta: nat, lane0: nat, k: nat)
    requires (eta == 2 || eta == 3) && lane0 + 32 <= 256 && k < 2 * eta
    ensures (2 * eta * lane0 + k + 31 * (2 * eta)) / 8 < 64 * eta
  {
    CountFits(eta, lane0, 31, k);
    LanePlace(eta, lane0, 31, k);
  }

  lemma LanePlace(eta: nat, lane0: nat, j: nat, k: nat)
    ensures 2 * eta * (lane0 + j) + k == 2 * eta * lane0 + k + 2 * eta * j
  {
    assert 2 * eta * (lane0 + j) == 2 * eta * lane0 + 2 * eta * j;
  }

  lemma NoWrapFour(v: nat)
    requires v <= 3
    ensures v % Pow2(2) == v
  {
    Pow2Values();
    DivModUnique(v, 4, 0, v);
  }

  lemma OnesStep(buf: seq<byte>, pos: nat, n: nat)
    requires (pos + n) / 8 < |buf|
    ensures OnesIn(buf, pos, n + 1) == OnesIn(buf, pos, n) + B2I(StreamBit(buf, pos + n))
  {
  }

  lemma StreamXor(b0: seq<byte>, b1: seq<byte>, pos: nat)
    requires |b0| == |b1| && pos / 8 < |b0|
    ensures StreamBit(XorBytes(b0, b1), pos) == (StreamAt(b0, pos) != StreamAt(b1, pos))
  {
    XorByteBit(b0[pos / 8], b1[pos / 8], pos % 8);
  }

  /** Complement of the four low words. */
  function NotFour(b: Bs): (r: Bs)
    requires b.Valid()
  {
    Bs(Padded([Not(b.w0[0]), Not(b.w0[1]), Not(b.w0[2]), Not(b.w0[3])]), Padded([b.w1[0], b.w1[1], b.w1[2], b.w1[3]]))
  }

  lemma NotFourLow(b: Bs, j: nat)
    requires b.Valid() && j < LANES
    ensures NotFour(b).Fits(4) && NotFour(b).Low(j, 4) == 15 - b.Low(j, 4)
  {
    var c := NotFour(b);
    var u, v := [Not(b.w0[0]), Not(b.w0[1]), Not(b.w0[2]), Not(b.w0[3])], [b.w1[0], b.w1[1], b.w1[2], b.w1[3]];
    PaddedFits(u, v, 4);
    LaneFour(c, j);
    LaneFour(b, j);
    assert c.w0[..4] == u && c.w1[..4] == v;
    assert c.w0[0] == u[0] && c.w0[1] == u[1] && c.w0[2] == u[2] && c.w0[3] == u[3];
    assert c.w1[0] == v[0] && c.w1[1] == v[1] && c.w1[2] == v[2] && c.w1[3] == v[3];
  }

  lemma LaneFour(b: Bs, j: nat)
    requires b.Valid() && j < LANES
    ensures b.Low(j, 4) == B2I(b.w0[0][j] != b.w1[0][j]) + 2 * B2I(b.w0[1][j] != b.w1[1][j])
      + 4 * B2I(b.w0[2][j] != b.w1[2][j]) + 8 * B2I(b.w0[3][j] != b.w1[3][j])
  {
    assert Pow2(0) == 1 && Pow2(1) == 2 && Pow2(2) == 4 && Pow2(3) == 8;
    assert Lane(b.w0, b.w1, j, 0) == 0;
    LaneNext(b.w0, b.w1, j, 1);
    LaneNext(b.w0, b.w1, j, 2);
    LaneNext(b.w0, b.w1, j, 3);
    LaneNext(b.w0, b.w1, j, 4);
  }

  lemma LaneNext(w0: seq<Word>, w1: seq<Word>, j: nat, n: nat)
    requires j < LANES && 0 < n <= |w0| && n <= |w1|
    ensures Lane(w0, w1, j, n) == Lane(w0, w1, j, n - 1) + B2I(w0[n - 1][j] != w1[n - 1][j]) * Pow2(n - 1)
  {
  }

  lemma ShiftedDifference(x: nat, y: nat, eta: nat)
    requires (eta == 2 || eta == 3) && x <= eta && y <= eta
    ensures (((x + (15 - y)) % 16) + (eta + 1) % 16) % 16 == x + eta - y < 16
  {
  }

  lemma Unshift(a0: int, a1: int, v: int, eta: nat)
    requires 0 <= a0 < 3329 && 0 <= a1 < 3329 && (eta == 2 || eta == 3) && (a0 + a1) % 3329 == v
    ensures var a := CaddMod(a0 - eta, 3329);
      0 <= a < 3329 && Cong(a + a1, v - eta, 3329)
  {
    var a := CaddMod(a0 - eta, 3329);
    CongMod(a0 + a1, 3329);
    CongRefl(eta, 3329);
    CongSub(a0 + a1, v, eta, eta, 3329);
    CongIntro(a + a1, a0 + a1 - eta, 3329, if a0 < eta then 1 else 0);
    CongTrans(a + a1, a0 + a1 - eta, v - eta, 3329);
  }

  /** x - y + eta in every lane. */
  method CbdLanes(b0: seq<byte>, b1: seq<byte>, lane0: nat, eta: nat, rng: Rng) returns (v: Bs)
    requires (eta == 2 || eta == 3) && |b0| == |b1| == 64 * eta && lane0 + 32 <= 256
    modifies rng
    ensures v.Fits(4)
    ensures forall j | 0 <= j < LANES :: v.Low(j, 4) == CbdAt(XorBytes(b0, b1), eta, lane0 + j) + eta
  {
    hide Lane, Pow2, OnesIn, Counted;
    ghost var x := XorBytes(b0, b1);
    var accX, accY := Bs(Padded([]), Padded([])), Bs(Padded([]), Padded([]));
    CountedStart(x, eta, lane0, 0);
    CountedStart(x, eta, lane0, eta);
    for k := 0 to 2 * eta
      invariant Counted(accX, x, eta, lane0, 0, if k < eta then k else eta)
      invariant Counted(accY, x, eta, lane0, eta, if k < eta then 0 else k - eta)
    {
      if k < eta {
        accX := CountBit(accX, b0, b1, eta, lane0, 0, k, rng);
      } else {
        accY := CountBit(accY, b0, b1, eta, lane0, eta, k - eta, rng);
      }
    }
    CountedValid(accX, x, eta, lane0, 0, eta);
    CountedValid(accY, x, eta, lane0, eta, eta);
    var ny := NotFour(accY);
    NotFourLow(accY, 0);
    var v1 := SecAdd(accX, ny, 4, rng);
    v := SecAddPublic(v1, seq(LANES, _ => eta + 1), 4, rng);
    forall j | 0 <= j < LANES
      ensures v.Low(j, 4) == CbdAt(x, eta, lane0 + j) + eta
    {
      NoiseFits(eta, lane0 + j);
      CountedLane(accX, x, eta, lane0, 0, eta, j);
      CountedLane(accY, x, eta, lane0, eta, eta, j);
      NotFourLow(accY, j);
      FitsTwice(v1, j, 4, 4);
      FitsTwice(v, j, 4, 4);
      Sixteen();
      ShiftedDifference(accX.Low(j, 4), accY.Low(j, 4), eta);
    }
  }

  lemma Sixteen()
    ensures Pow2(4) == 16
  {
    Pow2Values();
  }

  lemma CountedValid(acc: Bs, buf: seq<byte>, eta: nat, lane0: nat, skip: nat, n: nat)
    requires Counted(acc, buf, eta, lane0, skip, n)
    ensures acc.Fits(2)
  {
  }

  lemma CountedLane(acc: Bs, buf: seq<byte>, eta: nat, lane0: nat, skip: nat, n: nat, j: nat)
    requires Counted(acc, buf, eta, lane0, skip, n) && j < LANES
    ensures n > 0 ==> (2 * eta * (lane0 + j) + skip + n - 1) / 8 < |buf|
    ensures acc.Low(j, 4) == OnesIn(buf, 2 * eta * (lane0 + j) + skip, n) <= n
  {
    hide Lane, OnesIn;
    FitsTwice(acc, j, 2, 4);
    assert CountedAt(acc, buf, eta, lane0, skip, n, j);
  }

  /** Lane j: arithmetic shares of coefficient lane0 + j of the centred binomial. */
  method SecCbd32(b0: seq<byte>, b1: seq<byte>, lane0: nat, eta: nat, rng: Rng) returns (a0: seq<int>, a1: seq<int>)
    requires (eta == 2 || eta == 3) && |b0| == |b1| == 64 * eta && lane0 + 32 <= 256
    modifies rng
    ensures Residues(a0, 3329) && Residues(a1, 3329)
    ensures forall j | 0 <= j < LANES :: Cong(a0[j] + a1[j], CbdAt(XorBytes(b0, b1), eta, lane0 + j), 3329)
  {
    hide Lane, Pow2, CbdAt, Cong, CaddMod;
    ModuliValid();
    Sixteen();
    var v := CbdLanes(b0, b1, lane0, eta, rng);
    ghost var x := XorBytes(b0, b1);
    forall j | 0 <= j < LANES ensures v.Low(j, KEM.bits) == CbdAt(x, eta, lane0 + j) + eta < KEM.q {
      FitsTwice(v, j, 4, KEM.bits);
    }
    var c0, c1 := SecB2A(v, rng, KEM);
    forall j | 0 <= j < LANES
      ensures 0 <= CaddMod(c0[j] - eta, 3329) < 3329
      ensures Cong(CaddMod(c0[j] - eta, 3329) + c1[j], CbdAt(x, eta, lane0 + j), 3329)
    {
      Unshift(c0[j], c1[j], CbdAt(x, eta, lane0 + j) + eta, eta);
    }
    a0 := seq(LANES, j requires 0 <= j < LANES && |c0| == LANES => CaddMod(c0[j] - eta, 3329));
    a1 := c1;
  }
}
