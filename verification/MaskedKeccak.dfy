/** Keccak-f[1600] and the sponge on two shares: the linear layers on each share alone,
    chi through the masked AND on 32-bit halves, iota into share 0. */
module MaskedKeccak {
  import opened ModArith
  import opened Bits
  import opened MaskedGadgets
  import opened Keccak
  import opened KeccakSponge

  /** The state two share states stand for. */
  function XorState(a: State, b: State): (r: State)
    ensures forall t | 0 <= t < 25 :: r[t] == Xor64(a[t], b[t])
  {
    seq<Lane64>(25, t requires 0 <= t < 25 => Xor64(a[t], b[t]))
  }

  // ------------------------------------------------------------ linearity

  lemma RotlXor(a: Lane64, b: Lane64, n: nat)
    requires n < 64
    ensures Rotl(Xor64(a, b), n) == Xor64(Rotl(a, n), Rotl(b, n))
  {
  }

  lemma Xor64Swap(a: Lane64, b: Lane64, c: Lane64, d: Lane64)
    ensures Xor64(Xor64(a, b), Xor64(c, d)) == Xor64(Xor64(a, c), Xor64(b, d))
  {
  }

  lemma ParityXor(a: State, b: State, x: nat)
    requires x < 5
    ensures Parity(XorState(a, b), x) == Xor64(Parity(a, x), Parity(b, x))
  {
    hide Xor64;
    var s := XorState(a, b);
    var a1, b1 := Xor64(a[x], a[x + 5]), Xor64(b[x], b[x + 5]);
    Xor64Swap(a[x], b[x], a[x + 5], b[x + 5]);
    var a2, b2 := Xor64(a1, a[x + 10]), Xor64(b1, b[x + 10]);
    Xor64Swap(a1, b1, a[x + 10], b[x + 10]);
    var a3, b3 := Xor64(a2, a[x + 15]), Xor64(b2, b[x + 15]);
    Xor64Swap(a2, b2, a[x + 15], b[x + 15]);
    Xor64Swap(a3, b3, a[x + 20], b[x + 20]);
  }

  lemma ThetaXor(a: State, b: State, x: nat)
    requires x < 5
    ensures ThetaD(XorState(a, b), x) == Xor64(ThetaD(a, x), ThetaD(b, x))
  {
    hide Xor64, Parity, Rotl, XorState;
    var u, v := (x + 4) % 5, (x + 1) % 5;
    ParityXor(a, b, u);
    ParityXor(a, b, v);
    RotlXor(Parity(a, v), Parity(b, v), 1);
    Xor64Swap(Parity(a, u), Parity(b, u), Rotl(Parity(a, v), 1), Rotl(Parity(b, v), 1));
  }

  /** theta, rho and pi commute with sharing. */
  lemma LinearXor(a: State, b: State)
    ensures Linear(XorState(a, b)) == XorState(Linear(a), Linear(b))
  {
    hide Xor64, ThetaD, Rotl, Rho, PiX, PiY;
    forall t | 0 <= t < 25
      ensures LinearLane(XorState(a, b), t) == Xor64(LinearLane(a, t), LinearLane(b, t))
    {
      PiRange(t);
      var x, y := PiX(t), PiY(t);
      var i := x + 5 * y;
      ThetaXor(a, b, x);
      Xor64Swap(a[i], b[i], ThetaD(a, x), ThetaD(b, x));
      RotlXor(Xor64(a[i], ThetaD(a, x)), Xor64(b[i], ThetaD(b, x)), Rho(i));
    }
    assert forall t | 0 <= t < 25 :: Linear(XorState(a, b))[t] == XorState(Linear(a), Linear(b))[t];
  }

  // ------------------------------------------------------------ one share's linear pass

  /** theta's first half: every lane of column x takes d. */
  method ThetaInPlace(a: array<Lane64>)
    requires a.Length == 25
    modifies a
    ensures forall t | 0 <= t < 25 :: a[t] == Xor64(old(a[t]), ThetaD(old(StateOf(a)), t % 5))
  {
    hide Xor64, ThetaD, Parity;
    ghost var s := StateOf(a);
    var c: seq<Lane64> := seq<Lane64>(5, x requires 0 <= x < 5 && a.Length == 25 reads a => Parity(StateOf(a), x));
    for x := 0 to 5
      invariant forall t | 0 <= t < 25 :: a[t] == if t % 5 < x then Xor64(s[t], ThetaD(s, t % 5)) else s[t]
    {
      var d := ThetaOf(c, x, s);
      for y := 0 to 5
        invariant forall t | 0 <= t < 25 ::
          a[t] == if t % 5 < x || (t % 5 == x && t / 5 < y) then Xor64(s[t], ThetaD(s, t % 5)) else s[t]
      {
        a[5 * y + x] := Xor64(a[5 * y + x], d);
      }
    }
  }

  /** d for column x from the five parities. */
  method ThetaOf(c: seq<Lane64>, x: nat, ghost s: State) returns (d: Lane64)
    requires |c| == 5 && x < 5 && forall i | 0 <= i < 5 :: c[i] == Parity(s, i)
    ensures d == ThetaD(s, x)
  {
    d := Xor64(c[(x + 4) % 5], Rotl(c[(x + 1) % 5], 1));
  }

  /** theta, rho and pi on one share, in place. */
  method KeccakLinear(a: array<Lane64>)
    requires a.Length == 25
    modifies a
    ensures StateOf(a) == Linear(old(StateOf(a)))
  {
    hide Xor64, ThetaD, Rotl, Rho, PiX, PiY, PiTarget;
    ghost var s := StateOf(a);
    ThetaInPlace(a);
    ghost var mixed := a[..];
    var b := ZeroState();
    for x := 0 to 5
      invariant |b| == 25 && a[..] == mixed
      invariant forall t | 0 <= t < 25 && PiX(t) < x :: b[t] == LinearLane(s, t)
    {
      for y := 0 to 5
        invariant |b| == 25 && a[..] == mixed
        invariant forall t | 0 <= t < 25 && (PiX(t) < x || (PiX(t) == x && PiY(t) < y)) :: b[t] == LinearLane(s, t)
      {
        PiInverse(x, y);
        PiOnto(x, y);
        assert (x + 5 * y) % 5 == x && a[x + 5 * y] == mixed[x + 5 * y];
        b := b[PiTarget(x, y) := Rotl(a[x + 5 * y], Rho(x + 5 * y))];
      }
      forall t | 0 <= t < 25 ensures PiY(t) < 5 { PiRange(t); }
    }
    forall t | 0 <= t < 25 ensures PiX(t) < 5 { PiRange(t); }
    forall i | 0 <= i < 25 { a[i] := b[i]; }
  }

  /** Only one lane comes from (x, y). */
  lemma PiOnto(x: nat, y: nat)
    requires x < 5 && y < 5
    ensures forall t | 0 <= t < 25 && PiX(t) == x && PiY(t) == y :: t == PiTarget(x, y)
  {
    forall t | 0 <= t < 25 && PiX(t) == x && PiY(t) == y
      ensures t == PiTarget(x, y)
    {
      var m := t / 5;
      var k := (3 * m + y) / 5;
      assert 3 * m + y == 5 * k + x && t == 5 * m + y;
      DivModUnique(2 * x + 3 * y, 5, m + y - 2 * k, m);
    }
  }

  // ------------------------------------------------------------ chi on shares

  /** One output lane of a row, both halves, with fresh randomness for each AND. */
  method ChiMasked(a0: Lane64, a1: Lane64, b0: Lane64, b1: Lane64, c0: Lane64, c1: Lane64, rng: Rng)
    returns (o0: Lane64, o1: Lane64)
    modifies rng
    ensures Xor64(o0, o1) == Chi1(Xor64(a0, a1), Xor64(b0, b1), Xor64(c0, c1))
    ensures o0 == Xor64(a0, rng.stream(old(rng.pos)) + rng.stream(old(rng.pos) + 1))
  {
    var r := rng.U32();
    var lo := ChiHalf(Share(a0[..32], a1[..32]), Share(b0[..32], b1[..32]), Share(c0[..32], c1[..32]), r);
    r := rng.U32();
    var hi := ChiHalf(Share(a0[32..], a1[32..]), Share(b0[32..], b1[32..]), Share(c0[32..], c1[32..]), r);
    o0, o1 := lo.s0 + hi.s0, lo.s1 + hi.s1;
    forall i | 0 <= i < 64
      ensures (o0[i] != o1[i]) == ((a0[i] != a1[i]) != (!(b0[i] != b1[i]) && (c0[i] != c1[i])))
    {
      if i < 32 { assert lo.Bit(i) == (o0[i] != o1[i]); } else { assert hi.Bit(i - 32) == (o0[i] != o1[i]); }
    }
  }

  /** a ^ (~b & c) on shares: the complement flips one share. */
  function ChiHalf(a: Share, b: Share, c: Share, r: Word): (o: Share)
    ensures forall j | 0 <= j < LANES :: o.Bit(j) == (a.Bit(j) != (!b.Bit(j) && c.Bit(j)))
  {
    MXor(a, MAnd(MNot(b), c, r))
  }

  /** o is chi of the shared row at x. */
  ghost predicate RowChi(r0: seq<Lane64>, r1: seq<Lane64>, o: Lane64, x: nat)
    requires |r0| == |r1| == 5 && x < 5
  {
    o == Chi1(Xor64(r0[x], r1[x]), Xor64(r0[(x + 1) % 5], r1[(x + 1) % 5]), Xor64(r0[(x + 2) % 5], r1[(x + 2) % 5]))
  }

  /** One row of five lanes on both shares. */
  method ChiRow(r0: seq<Lane64>, r1: seq<Lane64>, rng: Rng) returns (o0: seq<Lane64>, o1: seq<Lane64>)
    requires |r0| == |r1| == 5
    modifies rng
    ensures |o0| == |o1| == 5
    ensures forall x | 0 <= x < 5 :: RowChi(r0, r1, Xor64(o0[x], o1[x]), x)
  {
    hide Xor64, Chi1;
    o0, o1 := [], [];
    for x := 0 to 5
      invariant |o0| == |o1| == x
      invariant forall k | 0 <= k < x :: RowChi(r0, r1, Xor64(o0[k], o1[k]), k)
    {
      var x1, x2 := (x + 1) % 5, (x + 2) % 5;
      var l0, l1 := ChiMasked(r0[x], r1[x], r0[x1], r1[x1], r0[x2], r1[x2], rng);
      o0, o1 := o0 + [l0], o1 + [l1];
    }
  }

  lemma RowLane(b: State, r0: seq<Lane64>, r1: seq<Lane64>, o: Lane64, x: nat, y: nat)
    requires x < 5 && y < 5 && |r0| == |r1| == 5
    requires forall k | 0 <= k < 5 :: Xor64(r0[k], r1[k]) == b[5 * y + k]
    requires RowChi(r0, r1, o, x)
    ensures o == ChiLane(b, 5 * y + x)
  {
    hide Xor64, Chi1;
    RowIndex(x, y);
  }

  /** Writes a row back into the two share states. */
  method StoreRow(s: array<Lane64>, y: nat, o: seq<Lane64>)
    requires s.Length == 25 && y < 5 && |o| == 5
    modifies s
    ensures forall t | 0 <= t < 25 :: s[t] == if 5 * y <= t < 5 * y + 5 then o[t - 5 * y] else old(s[t])
  {
    for x := 0 to 5
      invariant forall t | 0 <= t < 25 :: s[t] == if 5 * y <= t < 5 * y + x then o[t - 5 * y] else old(s[t])
    {
      s[5 * y + x] := o[x];
    }
  }

  /** chi over both share states, row by row: each row is read whole before it is written. */
  method ChiInPlace(s0: array<Lane64>, s1: array<Lane64>, rng: Rng)
    requires s0.Length == 25 && s1.Length == 25 && s0 != s1
    modifies s0, s1, rng
    ensures XorState(StateOf(s0), StateOf(s1)) == Chi(old(XorState(StateOf(s0), StateOf(s1))))
  {
    hide Xor64, Chi1, ChiLane, RowChi;
    ghost var b := XorState(StateOf(s0), StateOf(s1));
    for y := 0 to 5
      invariant forall t | 0 <= t < 5 * y :: Xor64(s0[t], s1[t]) == ChiLane(b, t)
      invariant forall t | 5 * y <= t < 25 :: Xor64(s0[t], s1[t]) == b[t]
    {
      var r0, r1 := s0[5 * y..5 * y + 5], s1[5 * y..5 * y + 5];
      var o0, o1 := ChiRow(r0, r1, rng);
      forall x | 0 <= x < 5
        ensures Xor64(o0[x], o1[x]) == ChiLane(b, 5 * y + x)
      {
        RowLane(b, r0, r1, Xor64(o0[x], o1[x]), x, y);
      }
      StoreRow(s0, y, o0);
      StoreRow(s1, y, o1);
      assert forall t | 5 * y <= t < 5 * y + 5 :: Xor64(s0[t], s1[t]) == Xor64(o0[t - 5 * y], o1[t - 5 * y]);
    }
  }

  lemma RowIndex(x: nat, y: nat)
    requires x < 5 && y < 5
    ensures (5 * y + x) / 5 == y && (5 * y + x) % 5 == x && (x + 1) % 5 < 5 && (x + 2) % 5 < 5
  {
  }

  lemma IotaXor(a: State, b: State, round: nat)
    requires round < |RC|
    ensures XorState(Iota(a, round), b) == Iota(XorState(a, b), round)
  {
    hide RoundConstant;
    var c := RoundConstant(round);
    assert Xor64(Xor64(a[0], c), b[0]) == Xor64(Xor64(a[0], b[0]), c);
    forall t | 0 <= t < 25
      ensures XorState(Iota(a, round), b)[t] == Iota(XorState(a, b), round)[t]
    {
    }
  }

  method MaskedRound(s0: array<Lane64>, s1: array<Lane64>, round: nat, rng: Rng)
    requires s0.Length == 25 && s1.Length == 25 && s0 != s1 && round < |RC|
    modifies s0, s1, rng
    ensures XorState(StateOf(s0), StateOf(s1)) == Round(old(XorState(StateOf(s0), StateOf(s1))), round)
  {
    hide Xor64, XorState, Linear, Chi, Iota, StateOf;
    ghost var a0, a1 := StateOf(s0), StateOf(s1);
    LinearXor(a0, a1);
    KeccakLinear(s0);
    KeccakLinear(s1);
    ChiInPlace(s0, s1, rng);
    IotaXor(StateOf(s0), StateOf(s1), round);
    IotaInPlace(s0, round);
  }

  /** Keccak-f[1600] on shares: for every random stream the XOR of the two results is the
      plain permutation of the XOR of the two inputs. */
  method KeccakFMasked(s0: array<Lane64>, s1: array<Lane64>, rng: Rng)
    requires s0.Length == 25 && s1.Length == 25 && s0 != s1
    modifies s0, s1, rng
    ensures XorState(StateOf(s0), StateOf(s1)) == KeccakF(old(XorState(StateOf(s0), StateOf(s1))))
  {
    hide XorState, StateOf, Round;
    ghost var a := XorState(StateOf(s0), StateOf(s1));
    for round := 0 to |RC|
      invariant XorState(StateOf(s0), StateOf(s1)) == Rounds(a, round)
    {
      MaskedRound(s0, s1, round, rng);
    }
  }

  method IotaInPlace(a: array<Lane64>, round: nat)
    requires a.Length == 25 && round < |RC|
    modifies a
    ensures StateOf(a) == Iota(old(StateOf(a)), round)
  {
    a[0] := Xor64(a[0], RoundConstant(round));
  }

  // ------------------------------------------------------------ the masked sponge

  lemma ByteLaneXor(a: byte, b: byte, k: nat)
    requires k < 8
    ensures ByteLane(XorByte(a, b), k) == Xor64(ByteLane(a, k), ByteLane(b, k))
  {
    var x := Xor(ByteBits(a), ByteBits(b));
    ToNatOfNat(x);
    assert ByteBits(XorByte(a, b)) == x;
    hide ByteBits, XorByte;
    forall i | 0 <= i < 64
      ensures ByteLane(XorByte(a, b), k)[i] == Xor64(ByteLane(a, k), ByteLane(b, k))[i]
    {
      if 8 * k <= i < 8 * k + 8 { assert x[i - 8 * k] == (ByteBits(a)[i - 8 * k] != ByteBits(b)[i - 8 * k]); }
    }
  }

  lemma XorByteAtShares(s0: State, s1: State, j: nat, a: byte, b: byte)
    requires j < 200
    ensures XorState(XorByteAt(s0, j, a), XorByteAt(s1, j, b)) == XorByteAt(XorState(s0, s1), j, XorByte(a, b))
  {
    hide Xor64, ByteLane, XorByte;
    var w := j / 8;
    ByteLaneXor(a, b, j % 8);
    Xor64Swap(s0[w], ByteLane(a, j % 8), s1[w], ByteLane(b, j % 8));
  }

  /** A public byte goes into share 0 only. */
  lemma XorByteAtPublic(s0: State, s1: State, j: nat, a: byte)
    requires j < 200
    ensures XorState(XorByteAt(s0, j, a), s1) == XorByteAt(XorState(s0, s1), j, a)
  {
    hide ByteLane;
    var w := j / 8;
    var l := ByteLane(a, j % 8);
    assert Xor64(Xor64(s0[w], l), s1[w]) == Xor64(Xor64(s0[w], s1[w]), l);
  }

  lemma {:induction false} XorRunShares(s0: State, s1: State, pos: nat, a: seq<byte>, b: seq<byte>)
    requires |a| == |b| && pos + |a| <= 200
    ensures XorState(XorRun(s0, pos, a), XorRun(s1, pos, b)) == XorRun(XorState(s0, s1), pos, XorBytes(a, b))
    decreases |a|
  {
    hide XorByteAt, XorByte, XorState;
    if a != [] {
      XorByteAtShares(s0, s1, pos, a[0], b[0]);
      XorRunShares(XorByteAt(s0, pos, a[0]), XorByteAt(s1, pos, b[0]), pos + 1, a[1..], b[1..]);
      assert XorBytes(a, b)[1..] == XorBytes(a[1..], b[1..]);
    }
  }

  lemma LaneByteShares(l0: Lane64, l1: Lane64, k: nat)
    requires k < 8
    ensures XorByte(LaneByte(l0, k), LaneByte(l1, k)) == LaneByte(Xor64(l0, l1), k)
  {
    hide BitsByte;
    var a, b := l0[8 * k..8 * k + 8], l1[8 * k..8 * k + 8];
    BitsByteBits(a);
    BitsByteBits(b);
    assert Xor64(l0, l1)[8 * k..8 * k + 8] == Xor(a, b);
  }

  lemma BitsByteBits(r: BitSeq)
    requires |r| == 8
    ensures ByteBits(BitsByte(r)) == r
  {
    ToNatOfNat(r);
  }

  lemma StateByteShares(s0: State, s1: State, j: nat)
    requires j < 200
    ensures XorByte(StateByte(s0, j), StateByte(s1, j)) == StateByte(XorState(s0, s1), j)
  {
    hide XorByte, LaneByte;
    LaneByteShares(s0[j / 8], s1[j / 8], j % 8);
  }

  /** Absorb the bytes of one share's block, one at a time, into that share's state. */
  method AbsorbBlock(s: array<Lane64>, m: seq<byte>)
    requires s.Length == 25 && |m| <= 200
    modifies s
    ensures StateOf(s) == XorRun(old(StateOf(s)), 0, m)
  {
    hide XorRun, XorByteAt;
    ghost var before := StateOf(s);
    RunStart(before, 0, m);
    for i := 0 to |m|
      invariant StateOf(s) == XorRun(before, 0, m[..i])
    {
      RunExtends(before, 0, m, i);
      XorSingle(s, i, m[i]);
    }
    assert m[..|m|] == m;
  }

  /** One block of both shares, absorbed and padded or permuted. */
  method AbsorbShares(s0: array<Lane64>, s1: array<Lane64>, b0: seq<byte>, b1: seq<byte>, rate: nat, domain: byte,
      rng: Rng)
    requires s0.Length == 25 && s1.Length == 25 && s0 != s1 && ValidRate(rate) && |b0| == |b1| <= rate
    modifies s0, s1, rng
    ensures var s := old(XorState(StateOf(s0), StateOf(s1)));
      var t := XorRun(s, 0, XorBytes(b0, b1));
      XorState(StateOf(s0), StateOf(s1)) == if |b0| < rate then Pad(Cursor(t, |b0|), rate, domain) else KeccakF(t)
  {
    hide XorRun, XorByteAt, XorState, StateOf, KeccakF, XorBytes;
    XorRunShares(StateOf(s0), StateOf(s1), 0, b0, b1);
    AbsorbBlock(s0, b0);
    AbsorbBlock(s1, b1);
    if |b0| < rate {
      XorByteAtPublic(StateOf(s0), StateOf(s1), |b0|, domain);
      XorSingle(s0, |b0|, domain);
      XorByteAtPublic(StateOf(s0), StateOf(s1), rate - 1, 128);
      XorSingle(s0, rate - 1, 128);
    }
    KeccakFMasked(s0, s1, rng);
  }

  /** The message shares absorbed block by block: the XOR state is the plain sponge's. */
  method AbsorbMasked(s0: array<Lane64>, s1: array<Lane64>, in0: seq<byte>, in1: seq<byte>, rate: nat, domain: byte,
      rng: Rng)
    requires s0.Length == 25 && s1.Length == 25 && s0 != s1 && ValidRate(rate) && |in0| == |in1|
    requires XorState(StateOf(s0), StateOf(s1)) == ZeroState()
    modifies s0, s1, rng
    ensures XorState(StateOf(s0), StateOf(s1)) == Absorbed(XorBytes(in0, in1), rate, domain)
  {
    hide XorRun, XorByteAt, XorState, StateOf, KeccakF, Feed, FeedAll, Pad, XorByte;
    ghost var m := XorBytes(in0, in1);
    var off := 0;
    AbsorbNothing(m, rate);
    while true
      invariant off <= |in0|
      invariant Cursor(XorState(StateOf(s0), StateOf(s1)), 0) == FeedAll(Start(), m[..off], rate)
      decreases |in0| - off + 1
    {
      var take := if |in0| - off < rate then |in0| - off else rate;
      var b0, b1 := in0[off..off + take], in1[off..off + take];
      ghost var c := Cursor(XorState(StateOf(s0), StateOf(s1)), 0);
      FeedMore(c, m, off, take, rate);
      assert m[off..off + take] == XorBytes(b0, b1);
      AbsorbShares(s0, s1, b0, b1, rate, domain, rng);
      off := off + take;
      if take < rate {
        assert m[..off] == m;
        break;
      }
    }
  }

  lemma AbsorbNothing(m: seq<byte>, rate: nat)
    requires ValidRate(rate)
    ensures Cursor(ZeroState(), 0) == FeedAll(Start(), m[..0], rate)
  {
  }

  lemma FeedMore(c: Cursor, m: seq<byte>, off: nat, take: nat, rate: nat)
    requires ValidRate(rate) && take <= rate && off + take <= |m|
    requires c.pos == 0 && c == FeedAll(Start(), m[..off], rate)
    ensures FeedAll(Start(), m[..off + take], rate) ==
      (var t := XorRun(c.s, 0, m[off..off + take]);
       if take < rate then Cursor(t, take) else Cursor(KeccakF(t), 0))
  {
    hide XorRun, KeccakF, Feed, FeedAll, Start;
    assert m[..off + take] == m[..off] + m[off..off + take];
    FeedSplit(Start(), m[..off], m[off..off + take], rate);
    FeedBlock(c, m[off..off + take], rate);
  }

  /** Reads bytes 0..take-1 of both share states. */
  method ReadShares(s0: State, s1: State, take: nat) returns (o0: seq<byte>, o1: seq<byte>)
    requires take <= 200
    ensures |o0| == |o1| == take
    ensures forall i | 0 <= i < take :: XorByte(o0[i], o1[i]) == StateByte(XorState(s0, s1), i)
  {
    hide StateByte, XorByte, XorState;
    o0 := ReadBytes(s0, 0, take);
    o1 := ReadBytes(s1, 0, take);
    forall i | 0 <= i < take
      ensures XorByte(o0[i], o1[i]) == StateByte(XorState(s0, s1), i)
    {
      StateByteShares(s0, s1, i);
    }
  }

  method SqueezeMasked(s0: array<Lane64>, s1: array<Lane64>, outlen: nat, rate: nat, rng: Rng)
    returns (out0: seq<byte>, out1: seq<byte>)
    requires s0.Length == 25 && s1.Length == 25 && s0 != s1 && ValidRate(rate)
    modifies s0, s1, rng
    ensures |out0| == |out1| == outlen
    ensures XorBytes(out0, out1) == Stream(old(XorState(StateOf(s0), StateOf(s1))), rate, 0, outlen)
  {
    hide XorState, StateOf, KeccakF, Iterate, Stream, StateByte, XorByte;
    ghost var start := XorState(StateOf(s0), StateOf(s1));
    ghost var block := 0;
    out0, out1 := [], [];
    StreamEmpty(start, rate, 0);
    IterateZero(start);
    while true
      invariant |out0| == |out1| == block * rate && |out0| <= outlen
      invariant XorState(StateOf(s0), StateOf(s1)) == Iterate(start, block)
      invariant XorBytes(out0, out1) == Stream(start, rate, 0, |out0|)
      decreases outlen - |out0|
    {
      var take := if outlen - |out0| < rate then outlen - |out0| else rate;
      var o0, o1 := ReadShares(StateOf(s0), StateOf(s1), take);
      StreamChunk(start, rate, 0, XorBytes(out0, out1), XorBytes(o0, o1), block, 0);
      assert XorBytes(out0 + o0, out1 + o1) == XorBytes(out0, out1) + XorBytes(o0, o1);
      out0, out1 := out0 + o0, out1 + o1;
      if |out0| >= outlen { break; }
      IterateNext(start, block);
      KeccakFMasked(s0, s1, rng);
      block := block + 1;
      assert block * rate == (block - 1) * rate + rate;
    }
  }

  lemma ZeroShares()
    ensures XorState(ZeroState(), ZeroState()) == ZeroState()
  {
    var r := XorState(ZeroState(), ZeroState());
    forall t | 0 <= t < 25 ensures r[t] == ZeroState()[t] { }
  }

  lemma IterateZero(s: State)
    ensures Iterate(s, 0) == s
  {
  }

  /** The masked sponge: for every random stream the two outputs XOR to the plain sponge of the
      XOR of the two inputs, whatever the lengths. */
  method SpongeMasked(in0: seq<byte>, in1: seq<byte>, outlen: nat, rate: nat, domain: byte, rng: Rng)
    returns (out0: seq<byte>, out1: seq<byte>)
    requires ValidRate(rate) && |in0| == |in1|
    modifies rng
    ensures |out0| == |out1| == outlen
    ensures XorBytes(out0, out1) == Sponge(XorBytes(in0, in1), rate, domain, outlen)
  {
    hide XorBytes, Absorbed, Stream, KeccakF;
    var s0 := new Lane64[25](_ => Zeros(64));
    var s1 := new Lane64[25](_ => Zeros(64));
    assert StateOf(s0) == ZeroState() && StateOf(s1) == ZeroState();
    ZeroShares();
    AbsorbMasked(s0, s1, in0, in1, rate, domain, rng);
    out0, out1 := SqueezeMasked(s0, s1, outlen, rate, rng);
  }
}
