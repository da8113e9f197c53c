/** Keccak-f[1600] (FIPS 202): the permutation as formulas, the straight-line plain code,
    and the incremental absorb / finalize / squeeze machine. */
module Keccak {
  import opened ModArith
  import opened Bits

  type State = s: seq<Lane64> | |s| == 25 witness seq(25, _ => Zeros(64))

  function ZeroState(): (s: State)
    ensures forall t, i | 0 <= t < 25 && 0 <= i < 64 :: !s[t][i]
  {
    seq(25, _ => Zeros(64))
  }

  const RHO: seq<nat> := [0, 1, 62, 28, 27, 36, 44, 6, 55, 20, 3, 10, 43, 25, 39, 41, 45, 15, 21, 8, 18, 2, 61, 56, 14]

  function Rho(i: nat): (n: nat)
    requires i < 25
    ensures n < 64
  {
    RHO[i]
  }

  /** The iota constants, as numbers. */
  const RC: seq<nat> := [
    0x0000000000000001, 0x0000000000008082, 0x800000000000808a, 0x8000000080008000,
    0x000000000000808b, 0x0000000080000001, 0x8000000080008081, 0x8000000000008009,
    0x000000000000008a, 0x0000000000000088, 0x0000000080008009, 0x000000008000000a,
    0x000000008000808b, 0x800000000000008b, 0x8000000000008089, 0x8000000000008003,
    0x8000000000008002, 0x8000000000000080, 0x000000000000800a, 0x800000008000000a,
    0x8000000080008081, 0x8000000000008080, 0x0000000080000001, 0x8000000080008008]

  function RoundConstant(r: nat): Lane64
    requires r < |RC|
  {
    OfNat(RC[r], 64)
  }

  function Xor64(a: Lane64, b: Lane64): (r: Lane64)
    ensures forall i | 0 <= i < 64 :: r[i] == (a[i] != b[i])
  {
    Xor(a, b)
  }

  function Rotl(x: Lane64, n: nat): (r: Lane64)
    requires n < 64
    ensures forall i | 0 <= i < 64 :: r[i] == x[(i + 64 - n) % 64]
  {
    seq(64, i requires 0 <= i < 64 => x[(i + 64 - n) % 64])
  }

  // ------------------------------------------------------------ one round, as formulas

  /** theta's column parity. */
  function Parity(a: State, x: nat): Lane64
    requires x < 5
  {
    Xor64(Xor64(Xor64(Xor64(a[x], a[x + 5]), a[x + 10]), a[x + 15]), a[x + 20])
  }

  function ThetaD(a: State, x: nat): Lane64
    requires x < 5
  {
    Xor64(Parity(a, (x + 4) % 5), Rotl(Parity(a, (x + 1) % 5), 1))
  }

  /** pi moves lane (x, y) to (y, 2x + 3y); PiX and PiY invert it. */
  function PiX(t: nat): nat { (3 * (t / 5) + t % 5) % 5 }
  function PiY(t: nat): nat { t % 5 }
  function PiTarget(x: nat, y: nat): nat { y + 5 * ((2 * x + 3 * y) % 5) }

  lemma PiInverse(x: nat, y: nat)
    requires x < 5 && y < 5
    ensures PiTarget(x, y) < 25 && PiX(PiTarget(x, y)) == x && PiY(PiTarget(x, y)) == y
  {
    var m, k := (2 * x + 3 * y) % 5, (2 * x + 3 * y) / 5;
    DivModUnique(PiTarget(x, y), 5, m, y);
    DivModUnique(3 * m + y, 5, x + 2 * y - 3 * k, x);
  }

  /** Lane t after theta, rho and pi. */
  function LinearLane(a: State, t: nat): Lane64
    requires t < 25
  {
    var x, y := PiX(t), PiY(t);
    Rotl(Xor64(a[x + 5 * y], ThetaD(a, x)), Rho(x + 5 * y))
  }

  function Linear(a: State): (r: State)
    ensures forall t | 0 <= t < 25 :: r[t] == LinearLane(a, t)
  {
    seq(25, t requires 0 <= t < 25 => LinearLane(a, t))
  }

  /** chi: b ^ (~b' & b''). */
  function Chi1(b0: Lane64, b1: Lane64, b2: Lane64): (r: Lane64)
    ensures forall i | 0 <= i < 64 :: r[i] == (b0[i] != (!b1[i] && b2[i]))
  {
    Xor64(b0, And(Not(b1), b2))
  }

  function ChiLane(b: State, i: nat): Lane64
    requires i < 25
  {
    Chi1(b[i], b[5 * (i / 5) + (i % 5 + 1) % 5], b[5 * (i / 5) + (i % 5 + 2) % 5])
  }

  function Chi(b: State): (r: State)
    ensures forall t | 0 <= t < 25 :: r[t] == ChiLane(b, t)
  {
    seq(25, t requires 0 <= t < 25 => ChiLane(b, t))
  }

  function Iota(a: State, r: nat): State
    requires r < |RC|
  {
    a[0 := Xor64(a[0], RoundConstant(r))]
  }

  function Round(a: State, r: nat): State
    requires r < |RC|
  {
    Iota(Chi(Linear(a)), r)
  }

  function Rounds(a: State, n: nat): State
    requires n <= |RC|
  {
    if n == 0 then a else Round(Rounds(a, n - 1), n - 1)
  }

  /** Keccak-f[1600]. */
  function KeccakF(a: State): State { Rounds(a, |RC|) }

  // ------------------------------------------------------------ the plain code

  /** The straight-line code's literal indices: the lane moved to t, and its column. */
  const LITERAL: seq<(nat, nat)> :=
    [(0, 0), (6, 1), (12, 2), (18, 3), (24, 4),
     (3, 3), (9, 4), (10, 0), (16, 1), (22, 2),
     (1, 1), (7, 2), (13, 3), (19, 4), (20, 0),
     (4, 4), (5, 0), (11, 1), (17, 2), (23, 3),
     (2, 2), (8, 3), (14, 4), (15, 0), (21, 1)]

  /** The literal index table is the formula. */
  lemma LiteralIndices(t: nat)
    requires t < 25
    ensures |LITERAL| == 25 && LITERAL[t] == (PiX(t) + 5 * PiY(t), PiX(t))
  {
    if t < 12 { LowIndices(t); } else { HighIndices(t); }
  }

  lemma LowIndices(t: nat)
    requires t < 12
    ensures LITERAL[t] == (PiX(t) + 5 * PiY(t), PiX(t))
  {
    if t < 6 { } else { }
  }

  lemma HighIndices(t: nat)
    requires 12 <= t < 25
    ensures LITERAL[t] == (PiX(t) + 5 * PiY(t), PiX(t))
  {
    if t < 18 { } else { }
  }

  function StateOf(a: array<Lane64>): (s: State)
    requires a.Length == 25
    reads a
    ensures forall i | 0 <= i < 25 :: s[i] == a[i]
  {
    a[..]
  }

  /** theta, rho and pi of the straight-line code, into the scratch lanes b. */
  method PlainLinear(a: State) returns (b: State)
    ensures b == Linear(a)
  {
    hide Rotl, Xor64, Rho, PiX, PiY, Parity, LITERAL, LinearLane;
    var c: seq<Lane64> := seq(5, x requires 0 <= x < 5 => Parity(a, x));
    var d: seq<Lane64> := seq(5, x requires 0 <= x < 5 && |c| == 5 => Xor64(c[(x + 4) % 5], Rotl(c[(x + 1) % 5], 1)));
    forall x | 0 <= x < 5 ensures d[x] == ThetaD(a, x) { }
    hide ThetaD;
    b := ZeroState();
    for t := 0 to 25
      invariant |b| == 25
      invariant forall k | 0 <= k < t :: b[k] == LinearLane(a, k)
    {
      LiteralIndices(t);
      PiRange(t);
      var (i, x) := LITERAL[t];
      LaneIs(a, t, i, x);
      b := b[t := Rotl(Xor64(a[i], d[x]), Rho(i))];
    }
  }

  lemma LaneIs(a: State, t: nat, i: nat, x: nat)
    requires t < 25 && x < 5 && i < 25 && x == PiX(t) && i == PiX(t) + 5 * PiY(t)
    ensures LinearLane(a, t) == Rotl(Xor64(a[i], ThetaD(a, x)), Rho(i))
  {
    hide ThetaD, Rotl, Rho, Xor64;
  }

  lemma PiRange(t: nat)
    requires t < 25
    ensures PiX(t) < 5 && PiY(t) < 5
  {
  }

  /** chi from the scratch lanes back into the state, then iota. */
  method PlainChiIota(a: array<Lane64>, b: State, round: nat)
    requires a.Length == 25 && round < |RC|
    modifies a
    ensures StateOf(a) == Iota(Chi(b), round)
  {
    hide Xor64, Chi1, RoundConstant;
    for i := 0 to 25
      invariant forall k | 0 <= k < i :: a[k] == ChiLane(b, k)
    {
      a[i] := Chi1(b[i], b[5 * (i / 5) + (i % 5 + 1) % 5], b[5 * (i / 5) + (i % 5 + 2) % 5]);
    }
    assert StateOf(a) == Chi(b);
    a[0] := Xor64(a[0], RoundConstant(round));
  }

  method KeccakF1600(a: array<Lane64>)
    requires a.Length == 25
    modifies a
    ensures StateOf(a) == KeccakF(old(StateOf(a)))
  {
    hide Linear, Chi, Iota;
    for round := 0 to |RC|
      invariant StateOf(a) == Rounds(old(StateOf(a)), round)
    {
      var b := PlainLinear(StateOf(a));
      PlainChiIota(a, b, round);
    }
  }
}
