/** FIPS 202 as it is written: the step mappings on bits A[x, y, z], the rotation offsets by their walk,
    the round constants by their shift register. The lane permutation is this one. */
module Fips202 {
  import opened ModArith
  import opened Bits
  import opened Keccak

  // ------------------------------------------------------------ the state array

  /** A[x, y, z] of section 3.1.2. */
  predicate At(a: State, x: nat, y: nat, z: nat)
    requires x < 5 && y < 5 && z < 64
  {
    a[x + 5 * y][z]
  }

  // ------------------------------------------------------------ section 3.2.1: theta

  /** C[x, z]: the parity of a column. */
  predicate Column(a: State, x: nat, z: nat)
    requires x < 5 && z < 64
  {
    (((At(a, x, 0, z) != At(a, x, 1, z)) != At(a, x, 2, z)) != At(a, x, 3, z)) != At(a, x, 4, z)
  }

  predicate ThetaBit(a: State, x: nat, y: nat, z: nat)
    requires x < 5 && y < 5 && z < 64
  {
    At(a, x, y, z) != (Column(a, (x + 4) % 5, z) != Column(a, (x + 1) % 5, (z + 63) % 64))
  }

  function Theta(a: State): (r: State) {
    seq(25, i requires 0 <= i < 25 => ThetaLane(a, i))
  }

  function ThetaLane(a: State, i: nat): (r: Lane64)
    requires i < 25
  {
    seq(64, z requires 0 <= z < 64 => ThetaBit(a, i % 5, i / 5, z))
  }

  // ------------------------------------------------------------ section 3.2.2: rho

  /** The walk (x, y) to (y, 2x + 3y) from (1, 0). */
  function Walk(t: nat): (w: (nat, nat))
    ensures w.0 < 5 && w.1 < 5
  {
    if t == 0 then (1, 0) else
      var (x, y) := Walk(t - 1);
      (y, (2 * x + 3 * y) % 5)
  }

  /** A lane turned by n: bit z comes from bit (z - n) mod 64. */
  function Turned(l: Lane64, n: nat): (r: Lane64) {
    seq(64, z requires 0 <= z < 64 => l[(z - n) % 64])
  }

  /** Algorithm 2 after t steps of the walk; lane (0, 0) stays. */
  function RhoAfter(a: State, t: nat): State {
    if t == 0 then a else
      var (x, y) := Walk(t - 1);
      RhoAfter(a, t - 1)[x + 5 * y := Turned(a[x + 5 * y], t * (t + 1) / 2)]
  }

  // ------------------------------------------------------------ sections 3.2.3 and 3.2.4: pi and chi

  function Pi(a: State): (r: State) {
    seq(25, i requires 0 <= i < 25 => PiLane(a, i % 5, i / 5))
  }

  function PiLane(a: State, x: nat, y: nat): Lane64
    requires x < 5 && y < 5
  {
    a[(x + 3 * y) % 5 + 5 * x]
  }

  predicate ChiBit(a: State, x: nat, y: nat, z: nat)
    requires x < 5 && y < 5 && z < 64
  {
    At(a, x, y, z) != (!At(a, (x + 1) % 5, y, z) && At(a, (x + 2) % 5, y, z))
  }

  function Chi202(a: State): (r: State) {
    seq(25, i requires 0 <= i < 25 => ChiLane202(a, i))
  }

  function ChiLane202(a: State, i: nat): (r: Lane64)
    requires i < 25
  {
    seq(64, z requires 0 <= z < 64 => ChiBit(a, i % 5, i / 5, z))
  }

  // ------------------------------------------------------------ section 3.2.5: iota

  /** One step of the register of Algorithm 5. */
  function Shifted(r: Octet): Octet { [r[7], r[0], r[1], r[2], r[3] != r[7], r[4] != r[7], r[5] != r[7], r[6]] }

  function Register(t: nat): Octet {
    if t == 0 then [true, false, false, false, false, false, false, false] else Shifted(Register(t - 1))
  }

  predicate Rc(t: nat) { Register(t % 255)[0] }

  /** Bit z of the round constant: rc(j + 7 i) at z = 2^j - 1, 0 elsewhere. */
  predicate ConstantBit(i: nat, z: nat) {
    (z == 0 && Rc(7 * i)) || (z == 1 && Rc(7 * i + 1)) || (z == 3 && Rc(7 * i + 2)) || (z == 7 && Rc(7 * i + 3))
    || (z == 15 && Rc(7 * i + 4)) || (z == 31 && Rc(7 * i + 5)) || (z == 63 && Rc(7 * i + 6))
  }

  function Constant202(i: nat): (r: Lane64) { seq(64, z requires 0 <= z < 64 => ConstantBit(i, z)) }

  function Iota202(a: State, i: nat): State { a[0 := Xor(a[0], Constant202(i))] }

  // ------------------------------------------------------------ section 3.3: the permutation

  function Round202(a: State, i: nat): State { Iota202(Chi202(Pi(RhoAfter(Theta(a), 24))), i) }

  /** Rnd(A, 0), ..., Rnd(A, n - 1). */
  function Rounds202(a: State, n: nat): State {
    if n == 0 then a else Round202(Rounds202(a, n - 1), n - 1)
  }

  // ------------------------------------------------------------ the linear layers

  lemma ThetaIs(a: State, i: nat)
    requires i < 25
    ensures Theta(a)[i] == Xor64(a[i], ThetaD(a, i % 5))
  {
    hide Column, At;
    var l, r := Theta(a)[i], Xor64(a[i], ThetaD(a, i % 5));
    forall z: nat | z < 64 ensures l[z] == r[z] {
      ThetaDBit(a, i % 5, z);
      LaneAt(a, i, z);
    }
  }

  lemma LaneAt(a: State, i: nat, z: nat)
    requires i < 25 && z < 64
    ensures At(a, i % 5, i / 5, z) == a[i][z]
  {
    assert i == i % 5 + 5 * (i / 5);
  }

  lemma ParityBit(a: State, x: nat, z: nat)
    requires x < 5 && z < 64
    ensures Parity(a, x)[z] == Column(a, x, z)
  {
  }

  lemma ThetaDBit(a: State, x: nat, z: nat)
    requires x < 5 && z < 64
    ensures ThetaD(a, x)[z] == (Column(a, (x + 4) % 5, z) != Column(a, (x + 1) % 5, (z + 63) % 64))
  {
    hide Column, Parity;
    ParityBit(a, (x + 4) % 5, z);
    ParityBit(a, (x + 1) % 5, (z + 63) % 64);
  }

  /** The table of offsets is the walk's, and lane 0 does not turn. */
  lemma RhoWalk(t: nat)
    requires t < 24
    ensures var (x, y) := Walk(t);
      Rho(x + 5 * y) == (t + 1) * (t + 2) / 2 % 64 && Rho(0) == 0
  {
    WalkAt(t);
    if t < 12 { LowOffsets(t); } else { HighOffsets(t); }
  }

  const WALK: seq<(nat, nat)> := [
    (1, 0), (0, 2), (2, 1), (1, 2), (2, 3), (3, 3), (3, 0), (0, 1), (1, 3), (3, 1), (1, 4), (4, 4),
    (4, 0), (0, 3), (3, 4), (4, 3), (3, 2), (2, 2), (2, 0), (0, 4), (4, 2), (2, 4), (4, 1), (1, 1)]

  lemma {:induction false} WalkAt(t: nat)
    requires t < 24
    ensures |WALK| == 24 && Walk(t) == WALK[t]
  {
    hide WALK;
    WalkHead();
    if t > 0 {
      WalkAt(t - 1);
      WalkStep(t - 1);
    }
  }

  lemma WalkHead()
    ensures |WALK| == 24 && WALK[0] == (1, 0)
  {
  }

  lemma WalkStep(t: nat)
    requires t + 1 < 24
    ensures |WALK| == 24
    ensures var (x, y) := WALK[t];
      WALK[t + 1] == (y, (2 * x + 3 * y) % 5)
  {
    if t < 12 { } else { }
  }

  lemma LowOffsets(t: nat)
    requires t < 12
    ensures Rho(WALK[t].0 + 5 * WALK[t].1) == (t + 1) * (t + 2) / 2 % 64
  {
    if t < 6 { } else { }
  }

  lemma HighOffsets(t: nat)
    requires 12 <= t < 24
    ensures Rho(WALK[t].0 + 5 * WALK[t].1) == (t + 1) * (t + 2) / 2 % 64
  {
    if t < 18 { } else { }
  }

  /** The walk passes every lane but the first. */
  lemma WalkCovers(i: nat) returns (t: nat)
    requires 0 < i < 25
    ensures t < 24 && Walk(t).0 + 5 * Walk(t).1 == i
  {
    hide STEPS, Walk;
    if i < 13 { LowStep(i); } else { HighStep(i); }
    t := STEPS[i];
    WalkAt(t);
  }

  /** The step at which the walk passes each lane. */
  const STEPS: seq<nat> := [0, 0, 18, 6, 12, 7, 23, 2, 9, 22, 1, 3, 17, 16, 20, 13, 8, 4, 5, 15, 19, 10, 21, 14, 11]

  lemma LowStep(i: nat)
    requires 0 < i < 13
    ensures |STEPS| == 25 && |WALK| == 24 && STEPS[i] < 24
    ensures WALK[STEPS[i]].0 + 5 * WALK[STEPS[i]].1 == i
  {
    if i < 7 { } else { }
  }

  lemma HighStep(i: nat)
    requires 13 <= i < 25
    ensures |STEPS| == 25 && |WALK| == 24 && STEPS[i] < 24
    ensures WALK[STEPS[i]].0 + 5 * WALK[STEPS[i]].1 == i
  {
    if i < 19 { } else { }
  }

  lemma TurnedIs(l: Lane64, n: nat)
    ensures Turned(l, n) == Rotl(l, n % 64)
  {
    forall z: nat | z < 64 ensures Turned(l, n)[z] == Rotl(l, n % 64)[z] { TurnedPlace(z, n); }
  }

  lemma TurnedPlace(z: nat, n: nat)
    ensures (z - n) % 64 == (z + 64 - n % 64) % 64
  {
    CongIntro(z - n, z + 64 - n % 64, 64, -(n / 64) - 1);
    CongSameMod(z - n, z + 64 - n % 64, 64);
  }

  /** A lane the walk has passed is turned by its offset; the others still stand. */
  lemma {:induction false} RhoSoFar(a: State, t: nat, s: nat)
    requires s < t <= 24
    ensures var i := Walk(s).0 + 5 * Walk(s).1;
      RhoAfter(a, t)[i] == Rotl(a[i], Rho(i))
    decreases t
  {
    hide Walk, Rotl, Turned, Rho;
    var (x, y) := Walk(t - 1);
    RhoWalk(t - 1);
    TurnedIs(a[x + 5 * y], t * (t + 1) / 2);
    if s < t - 1 { RhoSoFar(a, t - 1, s); }
  }

  lemma {:induction false} RhoKeepsFirst(a: State, t: nat)
    requires t <= 24
    ensures RhoAfter(a, t)[0] == a[0]
    decreases t
  {
    hide Turned;
    if t > 0 {
      RhoKeepsFirst(a, t - 1);
      WalkAt(t - 1);
      WalkNotFirst(t - 1);
    }
  }

  lemma WalkNotFirst(t: nat)
    requires t < 24
    ensures WALK[t] != (0, 0)
  {
  }

  lemma RhoIs(a: State, i: nat)
    requires i < 25
    ensures RhoAfter(a, 24)[i] == Rotl(a[i], Rho(i))
  {
    hide RhoAfter, Walk;
    if i == 0 {
      RhoKeepsFirst(a, 24);
      RhoWalk(0);
      assert Rotl(a[0], 0) == a[0];
    } else {
      var t := WalkCovers(i);
      RhoSoFar(a, 24, t);
    }
  }

  /** theta, rho and pi together. */
  lemma LinearIs(a: State)
    ensures Pi(RhoAfter(Theta(a), 24)) == Linear(a)
  {
    hide RhoAfter, Theta, Rotl, Xor64, ThetaD, Rho;
    var b := Pi(RhoAfter(Theta(a), 24));
    forall t | 0 <= t < 25 ensures b[t] == Linear(a)[t] {
      var x, y := PiX(t), PiY(t);
      SourceLane(t);
      var i := x + 5 * y;
      RhoIs(Theta(a), i);
      ThetaIs(a, i);
    }
  }

  lemma SourceLane(t: nat)
    requires t < 25
    ensures var i := PiX(t) + 5 * PiY(t);
      i < 25 && i % 5 == PiX(t) && i / 5 == PiY(t) && i == (t % 5 + 3 * (t / 5)) % 5 + 5 * (t % 5)
  {
    DivModUnique(PiX(t) + 5 * PiY(t), 5, PiY(t), PiX(t));
  }

  lemma ChiIs(a: State)
    ensures Chi202(a) == Chi(a)
  {
    hide At, Chi1;
    forall i | 0 <= i < 25 ensures Chi202(a)[i] == Chi(a)[i] { ChiLaneIs(a, i); }
  }

  lemma ChiLaneIs(a: State, i: nat)
    requires i < 25
    ensures ChiLane202(a, i) == ChiLane(a, i)
  {
    var x, y := i % 5, i / 5;
    forall z: nat | z < 64 ensures ChiLane202(a, i)[z] == ChiLane(a, i)[z] {
      assert i == x + 5 * y;
    }
  }

  // ------------------------------------------------------------ the round constants

  /** The register before each round's seven bits. */
  const CHECKPOINTS: seq<Octet> := [
    [true, false, false, false, false, false, false, false],
    [false, false, false, false, false, false, false, true],
    [false, false, false, true, true, false, true, true],
    [false, true, false, true, true, false, false, false],
    [true, true, true, true, true, false, true, true],
    [true, false, false, true, false, false, false, false],
    [true, false, true, false, true, true, false, false],
    [true, true, true, true, false, false, true, false],
    [false, true, false, true, false, false, true, true],
    [false, false, false, false, true, true, true, false],
    [true, false, false, false, false, false, true, false],
    [false, false, true, true, false, true, true, true],
    [true, false, true, false, true, false, true, true],
    [true, false, true, true, false, false, true, true],
    [true, true, false, false, false, true, true, false],
    [true, true, false, true, false, true, false, true],
    [false, true, false, true, false, true, false, true],
    [false, true, false, true, false, true, false, false],
    [false, true, false, false, true, true, true, true],
    [false, false, false, true, false, true, true, true],
    [true, true, true, false, true, true, false, false],
    [false, true, true, true, true, true, false, false],
    [true, true, false, true, false, false, false, false],
    [false, false, true, false, false, false, true, false]]


  /** Seven steps of the register, and the seven bits they put out. */
  function Seventh(r: Octet): Octet { Shifted(Shifted(Shifted(Shifted(Shifted(Shifted(Shifted(r))))))) }

  lemma SeventhIs(r: Octet)
    ensures Seventh(r) == [
      r[1] != (r[3] != r[4]), r[2] != (r[4] != r[5]), r[3] != (r[5] != r[6]), r[4] != (r[6] != r[7]),
      r[1] != (r[3] != (r[4] != (r[5] != r[7]))), r[1] != (r[2] != (r[3] != (r[5] != r[6]))),
      r[1] != (r[2] != (r[6] != r[7])), r[0] != (r[2] != (r[3] != r[7]))]
  {
  }

  lemma RegisterSeven(t: nat)
    ensures Register(t + 7) == Seventh(Register(t))
  {
    var r := Register(t);
    assert Register(t + 1) == Shifted(r);
    assert Register(t + 2) == Shifted(Shifted(r));
    assert Register(t + 3) == Shifted(Shifted(Shifted(r)));
    assert Register(t + 4) == Shifted(Register(t + 3));
    assert Register(t + 5) == Shifted(Register(t + 4));
    assert Register(t + 6) == Shifted(Register(t + 5));
  }

  lemma OutputBits(t: nat)
    ensures var r := Register(t);
      Register(t + 1)[0] == r[7] && Register(t + 2)[0] == r[6] && Register(t + 3)[0] == (r[5] != r[7])
      && Register(t + 4)[0] == (r[4] != (r[6] != r[7])) && Register(t + 5)[0] == (r[3] != (r[5] != r[6]))
      && Register(t + 6)[0] == (r[2] != (r[4] != r[5]))
  {
    var r := Register(t);
    assert Register(t + 1) == Shifted(r);
    assert Register(t + 2) == Shifted(Shifted(r));
    assert Register(t + 3) == Shifted(Shifted(Shifted(r)));
    assert Register(t + 4) == Shifted(Register(t + 3));
    assert Register(t + 5) == Shifted(Register(t + 4));
    assert Register(t + 6) == Shifted(Register(t + 5));
  }

  lemma {:induction false} Checkpoint(i: nat)
    requires i < 24
    ensures |CHECKPOINTS| == 24 && Register(7 * i) == CHECKPOINTS[i]
  {
    hide CHECKPOINTS;
    FirstCheckpoint();
    if i > 0 {
      hide Register, Shifted, Seventh;
      Checkpoint(i - 1);
      RegisterSeven(7 * (i - 1));
      if i <= 12 { EarlySevenths(i - 1); } else if i <= 18 { LateSevenths(i - 1); } else { LastSevenths(i - 1); }
    }
  }

  lemma FirstCheckpoint()
    ensures |CHECKPOINTS| == 24 && Register(0) == CHECKPOINTS[0]
  {
  }

  lemma EarlySevenths(i: nat)
    requires i < 12
    ensures |CHECKPOINTS| == 24 && Seventh(CHECKPOINTS[i]) == CHECKPOINTS[i + 1]
  {
    hide Seventh;
    SeventhIs(CHECKPOINTS[i]);
    if i < 4 { } else if i < 8 { } else { }
  }

  lemma LateSevenths(i: nat)
    requires 12 <= i < 18
    ensures |CHECKPOINTS| == 24 && Seventh(CHECKPOINTS[i]) == CHECKPOINTS[i + 1]
  {
    hide Seventh;
    SeventhIs(CHECKPOINTS[i]);
    if i < 15 { } else { }
  }

  lemma LastSevenths(i: nat)
    requires 18 <= i < 23
    ensures |CHECKPOINTS| == 24 && Seventh(CHECKPOINTS[i]) == CHECKPOINTS[i + 1]
  {
    hide Seventh;
    SeventhIs(CHECKPOINTS[i]);
    if i < 21 { } else { }
  }

  /** A word whose set bits can only stand at 2^j - 1, as a number. */
  function Spread(b: BitSeq): nat
    requires |b| == 7
  {
    B2I(b[0]) + 2 * (B2I(b[1]) + 4 * (B2I(b[2]) + 16 * (B2I(b[3]) + 256 * (B2I(b[4]) + 65536 * (B2I(b[5])
      + 4294967296 * B2I(b[6]))))))
  }

  lemma {:induction false} ShiftedNumber(k: nat, w: BitSeq)
    ensures ToNat(Zeros(k) + w) == Pow2(k) * ToNat(w)
    decreases k
  {
    if k == 0 {
      assert Zeros(0) + w == w;
    } else {
      hide ToNat;
      ShiftedNumber(k - 1, w);
      assert (Zeros(k) + w)[1..] == Zeros(k - 1) + w;
      ShiftedOnce(Zeros(k) + w);
      Doubled(Pow2(k - 1), ToNat(w));
    }
  }

  lemma ShiftedOnce(w: BitSeq)
    requires w != [] && !w[0]
    ensures ToNat(w) == 2 * ToNat(w[1..])
  {
  }

  lemma Doubled(p: int, n: int)
    ensures 2 * (p * n) == (2 * p) * n
  {
  }

  /** A bit, k zeroes and a word. */
  function Gapped(b: bool, k: nat, w: BitSeq): BitSeq { [b] + (Zeros(k) + w) }

  lemma GappedNumber(b: bool, k: nat, w: BitSeq)
    ensures ToNat(Gapped(b, k, w)) == B2I(b) + 2 * (Pow2(k) * ToNat(w))
  {
    ShiftedNumber(k, w);
    assert Gapped(b, k, w)[1..] == Zeros(k) + w;
  }

  function Word5(b: BitSeq): BitSeq requires |b| == 7 { Gapped(b[4], 15, Gapped(b[5], 31, [b[6]])) }
  function Word7(b: BitSeq): BitSeq requires |b| == 7 {
    Gapped(b[0], 0, Gapped(b[1], 1, Gapped(b[2], 3, Gapped(b[3], 7, Word5(b)))))
  }

  lemma Powers()
    ensures Pow2(0) == 1 && Pow2(1) == 2 && Pow2(3) == 8 && Pow2(7) == 128 && Pow2(15) == 32768
    ensures Pow2(31) == 2147483648
  {
    assert Pow2(7) == 128;
    assert Pow2(15) == 32768;
    assert Pow2(23) == 8388608;
  }

  lemma Word5Number(b: BitSeq)
    requires |b| == 7
    ensures ToNat(Word5(b)) == B2I(b[4]) + 65536 * (B2I(b[5]) + 4294967296 * B2I(b[6]))
  {
    hide Gapped;
    Powers();
    assert ToNat([b[6]]) == B2I(b[6]) by { assert [b[6]][1..] == []; }
    GappedNumber(b[5], 31, [b[6]]);
    GappedNumber(b[4], 15, Gapped(b[5], 31, [b[6]]));
  }

  lemma Word7Number(b: BitSeq)
    requires |b| == 7
    ensures ToNat(Word7(b)) == Spread(b)
  {
    Word5Number(b);
    hide Word5;
    FourGaps(b[0], b[1], b[2], b[3], Word5(b));
  }

  lemma FourGaps(b0: bool, b1: bool, b2: bool, b3: bool, w: BitSeq)
    ensures ToNat(Gapped(b0, 0, Gapped(b1, 1, Gapped(b2, 3, Gapped(b3, 7, w)))))
         == B2I(b0) + 2 * (B2I(b1) + 4 * (B2I(b2) + 16 * (B2I(b3) + 256 * ToNat(w))))
  {
    hide Gapped, ToNat, Pow2;
    Powers();
    var w3 := Gapped(b3, 7, w);
    var w2 := Gapped(b2, 3, w3);
    var w1 := Gapped(b1, 1, w2);
    GappedNumber(b3, 7, w);
    GappedNumber(b2, 3, w3);
    GappedNumber(b1, 1, w2);
    GappedNumber(b0, 0, w1);
  }

  lemma Word5Bits(b: BitSeq)
    requires |b| == 7
    ensures |Word5(b)| == 49
    ensures forall z | 0 <= z < 49 ::
      Word5(b)[z] == ((z == 0 && b[4]) || (z == 16 && b[5]) || (z == 48 && b[6]))
  {
  }

  lemma Word7Bits(b: BitSeq)
    requires |b| == 7
    ensures |Word7(b)| == 64
    ensures forall z | 0 <= z < 64 ::
      Word7(b)[z] == ((z == 0 && b[0]) || (z == 1 && b[1]) || (z == 3 && b[2]) || (z == 7 && b[3]) || (z == 15 && b[4])
                      || (z == 31 && b[5]) || (z == 63 && b[6]))
  {
    hide Word5;
    Word5Bits(b);
  }

  /** The seven bits of round i. */
  function RoundBits(i: nat): (b: BitSeq)
    ensures |b| == 7
  {
    [Rc(7 * i), Rc(7 * i + 1), Rc(7 * i + 2), Rc(7 * i + 3), Rc(7 * i + 4), Rc(7 * i + 5), Rc(7 * i + 6)]
  }

  lemma RoundBitsAre(i: nat)
    requires i < 24
    ensures |CHECKPOINTS| == 24
    ensures RoundBits(i) == OutputsOf(CHECKPOINTS[i])
  {
    hide Register, CHECKPOINTS, Rc;
    Checkpoint(i);
    OutputBits(7 * i);
    RcEarly(7 * i);
    RcEarly(7 * i + 1);
    RcEarly(7 * i + 2);
    RcEarly(7 * i + 3);
    RcEarly(7 * i + 4);
    RcEarly(7 * i + 5);
    RcEarly(7 * i + 6);
  }

  lemma RcEarly(t: nat)
    requires t < 255
    ensures Rc(t) == Register(t)[0]
  {
    hide Register;
    assert t % 255 == t;
  }

  lemma ConstantNumber(i: nat)
    requires i < 24
    ensures Spread(RoundBits(i)) == RC[i]
  {
    hide Spread, CHECKPOINTS, RC, RoundBits;
    RoundBitsAre(i);
    if i < 6 { Numbers0(i); } else if i < 12 { Numbers1(i); } else if i < 18 { Numbers2(i); } else { Numbers3(i); }
  }

  /** The seven bits, from the register. */
  function OutputsOf(r: Octet): (b: BitSeq)
    ensures |b| == 7
  {
    [r[0], r[7], r[6], r[5] != r[7], r[4] != (r[6] != r[7]), r[3] != (r[5] != r[6]), r[2] != (r[4] != r[5])]
  }

  lemma Numbers0(i: nat)
    requires i < 6
    ensures |CHECKPOINTS| == 24 && Spread(OutputsOf(CHECKPOINTS[i])) == RC[i]
  {
    if i < 3 { } else { }
  }

  lemma Numbers1(i: nat)
    requires 6 <= i < 12
    ensures |CHECKPOINTS| == 24 && Spread(OutputsOf(CHECKPOINTS[i])) == RC[i]
  {
    if i < 9 { } else { }
  }

  lemma Numbers2(i: nat)
    requires 12 <= i < 18
    ensures |CHECKPOINTS| == 24 && Spread(OutputsOf(CHECKPOINTS[i])) == RC[i]
  {
    if i < 15 { } else { }
  }

  lemma Numbers3(i: nat)
    requires 18 <= i < 24
    ensures |CHECKPOINTS| == 24 && Spread(OutputsOf(CHECKPOINTS[i])) == RC[i]
  {
    if i < 21 { } else { }
  }

  /** The table of round constants is the shift register's. */
  lemma ConstantsAre(i: nat)
    requires i < 24
    ensures RoundConstant(i) == Constant202(i)
  {
    hide Rc, Spread;
    var b := RoundBits(i);
    ConstantNumber(i);
    Word7Number(b);
    Word7Bits(b);
    hide Word7, ToNat;
    assert Word7(b) == Constant202(i);
    ToNatOfNat(Word7(b));
  }

  lemma RoundIs(a: State, i: nat)
    requires i < 24
    ensures Round202(a, i) == Round(a, i)
  {
    hide RhoAfter, Theta, Pi, Linear, Chi202, Chi, Constant202, RoundConstant;
    LinearIs(a);
    ChiIs(Linear(a));
    ConstantsAre(i);
  }

  lemma {:induction false} RoundsAre(a: State, n: nat)
    requires n <= 24
    ensures Rounds202(a, n) == Rounds(a, n)
  {
    hide Round202, Round;
    if n > 0 {
      RoundsAre(a, n - 1);
      RoundIs(Rounds(a, n - 1), n - 1);
    }
  }

  /** The lane permutation is Keccak-p[1600, 24]. */
  lemma KeccakIs(a: State)
    ensures KeccakF(a) == Rounds202(a, 24)
  {
    hide Rounds202, Rounds;
    RoundsAre(a, 24);
  }
}
