/** The ML-DSA gadgets: HighBits by binary search, the low-bits window and the norm test,
    all on shares. */
module MaskedDsa {
  import opened ModArith
  import opened MlDsaModulus
  import opened Bits
  import opened MaskedGadgets
  import opened MaskedConversions
  import opened MlDsaRounding

  /** The secret of lane j: the canonical residue the two shares add up to. */
  function Unshared(a0: seq<int>, a1: seq<int>, j: nat): int
    requires j < |a0| && j < |a1|
  {
    (a0[j] + a1[j]) % Q
  }

  /** Adding a public constant that stays below 2^bits. */
  lemma AddNoWrap(x: nat, c: nat, bits: nat)
    requires x + c < Pow2(bits)
    ensures (x + c % Pow2(bits)) % Pow2(bits) == x + c
  {
    DivModUnique(c, Pow2(bits), 0, c);
    DivModUnique(x + c, Pow2(bits), 0, x + c);
  }

  /** b' for 32 lanes of a = a0 + a1 mod q. */
  method DsaBPrime(a0: seq<int>, a1: seq<int>, den: Den, rng: Rng) returns (bp: Bs)
    requires Residues(a0, DSA.q) && Residues(a1, DSA.q)
    modifies rng
    ensures bp.Fits(DSA.bits)
    ensures forall j | 0 <= j < LANES :: bp.Low(j, DSA.bits) == BPrime(Unshared(a0, a1, j), den)
  {
    hide Lane, Pow2;
    ModuliValid();
    Pow2Values();
    var g := Gamma2(den);
    var t := ShareSum(a0, a1, rng, DSA);
    var a := SecReduceQ(t, rng, DSA);
    var c := seq(LANES, _ => g - 1);
    var nc := seq(LANES, _ => Pow2(DSA.bits) - (DSA.q - 1));
    var b := SecAddPublic(a, c, DSA.bits, rng);
    forall j | 0 <= j < LANES
      ensures a.Low(j, DSA.bits) == Unshared(a0, a1, j) && b.Low(j, DSA.bits) == Unshared(a0, a1, j) + g - 1
    {
      FitsLow(a, j, DSA.bits);
      FitsLow(b, j, DSA.bits);
      AddNoWrap(a.Low(j, DSA.bits), g - 1, DSA.bits);
    }
    var bm := SecAddPublic(b, nc, DSA.bits, rng);
    var s := SecLessConst(b, DSA.q - 1, rng, DSA);
    bp := SecSelect(s, b, bm, DSA.bits, rng);
    forall j | 0 <= j < LANES
      ensures bp.Low(j, DSA.bits) == BPrime(Unshared(a0, a1, j), den)
    {
      FitsLow(bp, j, DSA.bits);
      FitsLow(bm, j, DSA.bits);
      WrapSubtract(b.Low(j, DSA.bits), DSA.q - 1, DSA.bits);
    }
  }

  /** c steps fit under b exactly when c is at most the quotient. */
  lemma QuotientBound(b: int, c: int, g: int)
    requires 0 < g
    ensures b >= c * g <==> b / g >= c
  {
    var q, r := b / g, b % g;
    assert b == g * q + r;
    if q >= c { MulMono(c, q, g); } else { MulMono(q + 1, c, g); }
  }

  /** The comparison threshold of one search step: out of reach past the last step. */
  function Threshold(c: int, den: Den): int {
    if c <= (Q - 1) / (2 * Gamma2(den)) - 1 then 2 * c * Gamma2(den) else 16777215
  }

  lemma SearchStep(b: int, w1: int, p: int, den: Den)
    requires 0 <= b < Q - 1 && 0 <= w1 && 0 < p
    requires w1 <= b / (2 * Gamma2(den)) < w1 + 2 * p
    ensures b >= Threshold(w1 + p, den) <==> b / (2 * Gamma2(den)) >= w1 + p
  {
    QuotientBound(b, w1 + p, 2 * Gamma2(den));
    assert 2 * (w1 + p) * Gamma2(den) == (w1 + p) * (2 * Gamma2(den));
    if den == 88 { } else { }
  }

  /** The quotient lies in the interval of length max(2p, 1) from w1. */
  predicate Searching(w1: int, b: int, p: int, den: Den) {
    0 <= w1 <= 64 && w1 <= b / (2 * Gamma2(den)) < w1 + (if p == 0 then 1 else 2 * p)
  }

  lemma SearchStart(b: int, den: Den)
    requires 0 <= b < Q - 1
    ensures Searching(0, b, 32, den)
  {
    if den == 88 { } else { }
  }

  lemma SearchHalves(b: int, w1: int, p: int, den: Den, ge: bool)
    requires 0 <= b < Q - 1 && p in {1, 2, 4, 8, 16, 32} && Searching(w1, b, p, den)
    requires ge == (b >= Threshold(w1 + p, den))
    ensures Searching(w1 + (if ge then p else 0), b, p / 2, den)
  {
    hide Threshold;
    SearchStep(b, w1, p, den);
    SearchStart(b, den);
  }

  lemma SearchEnd(w1: int, b: int, den: Den)
    requires Searching(w1, b, 0, den)
    ensures w1 == b / (2 * Gamma2(den))
  {
  }

  lemma ThresholdRange(w1: int, b: int, p: int, den: Den)
    requires Searching(w1, b, p, den) && 0 <= p
    ensures 0 <= Threshold(w1 + p, den) < 16777216
  {
    if den == 88 { } else { }
  }

  /** HighBits per lane: a binary search whose comparisons each reveal one bit. */
  method DsaRevealHighBits(bp: Bs, den: Den, rng: Rng) returns (w1: seq<int>)
    requires bp.Fits(DSA.bits)
    requires forall j | 0 <= j < LANES :: bp.Low(j, DSA.bits) < Q - 1
    modifies rng
    ensures |w1| == LANES
    ensures forall j | 0 <= j < LANES :: w1[j] == bp.Low(j, DSA.bits) / (2 * Gamma2(den))
  {
    hide Lane, Pow2, Threshold, Searching;
    ModuliValid();
    forall j | 0 <= j < LANES
      ensures Searching(0, bp.Low(j, DSA.bits), 32, den)
    {
      SearchStart(bp.Low(j, DSA.bits), den);
    }
    w1 := seq(LANES, _ => 0);
    var p := 32;
    while p >= 1
      invariant p in {0, 1, 2, 4, 8, 16, 32}
      invariant |w1| == LANES && forall j | 0 <= j < LANES :: Searching(w1[j], bp.Low(j, DSA.bits), p, den)
      decreases p
    {
      forall j | 0 <= j < LANES
        ensures 0 <= Threshold(w1[j] + p, den) < 16777216
      {
        ThresholdRange(w1[j], bp.Low(j, DSA.bits), p, den);
      }
      var thr := seq(LANES, j requires 0 <= j < LANES && |w1| == LANES => Threshold(w1[j] + p, den));
      var s := SecLess(bp, thr, rng, DSA);
      var ge := Not(s.Unmask());
      forall j | 0 <= j < LANES
        ensures Searching(w1[j] + (if ge[j] then p else 0), bp.Low(j, DSA.bits), p / 2, den)
      {
        assert ge[j] == !s.Bit(j);
        SearchHalves(bp.Low(j, DSA.bits), w1[j], p, den, ge[j]);
      }
      w1 := seq(LANES, j requires 0 <= j < LANES && |w1| == LANES => w1[j] + (if ge[j] then p else 0));
      p := p / 2;
    }
    forall j | 0 <= j < LANES
      ensures w1[j] == bp.Low(j, DSA.bits) / (2 * Gamma2(den))
    {
      SearchEnd(w1[j], bp.Low(j, DSA.bits), den);
    }
  }

  /** Lane j set exactly when the low bits stay inside +-(gamma2 - beta - 1) around w1 steps. */
  method DsaLowBitsOk(bp: Bs, w1: seq<int>, den: Den, beta: int, rng: Rng) returns (o: Share)
    requires bp.Fits(DSA.bits) && 0 < beta < 1000
    requires forall j | 0 <= j < LANES :: bp.Low(j, DSA.bits) < Q - 1
    requires |w1| == LANES && forall j | 0 <= j < LANES :: 0 <= w1[j] < Steps(den)
    modifies rng
    ensures forall j | 0 <= j < LANES ::
      (o.Bit(j) == (WindowLow(w1[j], beta, den) <= bp.Low(j, DSA.bits) < WindowHigh(w1[j], beta, den)))
  {
    hide Lane, Pow2;
    ModuliValid();
    forall j | 0 <= j < LANES
      ensures 0 <= WindowLow(w1[j], beta, den) < 16777216 && 0 <= WindowHigh(w1[j], beta, den) < 16777216
    {
      WindowRange(w1[j], beta, den);
    }
    var lo := seq(LANES, j requires 0 <= j < LANES => WindowLow(w1[j], beta, den));
    var hi := seq(LANES, j requires 0 <= j < LANES => WindowHigh(w1[j], beta, den));
    var a := SecLess(bp, lo, rng, DSA);
    var b := SecLess(bp, hi, rng, DSA);
    var na := MNot(a);
    var r := rng.U32();
    o := MAnd(na, b, r);
  }

  lemma WindowRange(w1: int, beta: int, den: Den)
    requires 0 <= w1 < Steps(den) && 0 < beta < 1000
    ensures 0 <= WindowLow(w1, beta, den) < 16777216 && 0 <= WindowHigh(w1, beta, den) < 16777216
  {
    if den == 88 { assert 2 * 95232 * w1 <= 190464 * 43; } else { assert 2 * 261888 * w1 <= 523776 * 15; }
  }

  /** |x| < B, centred mod q, as a cyclic interval from q - B + 1. */
  lemma NormInterval(s: int, B: int)
    requires 0 < B <= Q / 2
    ensures (s - (Q - B + 1)) % Q < 2 * B - 1 <==> Small(s, B)
  {
    var r := s % Q;
    var k := s / Q;
    assert s == Q * k + r;
    if r >= Q - B + 1 {
      DivModUnique(s - (Q - B + 1), Q, k, r - (Q - B + 1));
    } else {
      DivModUnique(s - (Q - B + 1), Q, k - 1, r + B - 1);
    }
  }

  /** ||a||_inf < B for n coefficients held as shares, accumulated into acc. */
  method DsaNormAcc(acc: AllOk, a0: seq<int>, a1: seq<int>, B: int, rng: Rng)
    requires |a0| == |a1| && |a0| % 32 == 0 && 0 < B <= Q / 2
    requires forall i | 0 <= i < |a0| :: 0 <= a0[i] < Q && 0 <= a1[i] < Q
    modifies acc, rng
    ensures acc.AllSet() == (old(acc.AllSet()) && forall i | 0 <= i < |a0| :: Small(a0[i] + a1[i], B))
  {
    hide Lane, Pow2, Small;
    ModuliValid();
    var lo := seq(LANES, _ => Q - B + 1);
    var w := seq(LANES, _ => 2 * B - 1);
    var i := 0;
    while i < |a0|
      invariant 0 <= i <= |a0| && i % 32 == 0
      invariant acc.AllSet() == (old(acc.AllSet()) && forall k | 0 <= k < i :: Small(a0[k] + a1[k], B))
    {
      var o := SecInInterval(a0[i..i + 32], a1[i..i + 32], lo, w, rng, DSA);
      forall j | 0 <= j < LANES
        ensures o.Bit(j) == Small(a0[i + j] + a1[i + j], B)
      {
        NormInterval(a0[i + j] + a1[i + j], B);
      }
      acc.Add(o, rng);
      SmallBlock(a0, a1, B, i, o);
      i := i + 32;
    }
  }

  lemma SmallBlock(a0: seq<int>, a1: seq<int>, B: int, i: nat, o: Share)
    requires |a0| == |a1| && i + 32 <= |a0|
    requires forall j | 0 <= j < LANES :: o.Bit(j) == Small(a0[i + j] + a1[i + j], B)
    ensures (forall k | 0 <= k < i + 32 :: Small(a0[k] + a1[k], B)) ==
      ((forall k | 0 <= k < i :: Small(a0[k] + a1[k], B)) && (forall j | 0 <= j < LANES :: o.Bit(j)))
  {
    hide Small;
    if forall k | 0 <= k < i + 32 :: Small(a0[k] + a1[k], B) {
      forall j | 0 <= j < LANES ensures o.Bit(j) { assert Small(a0[i + j] + a1[i + j], B); }
    }
    if (forall k | 0 <= k < i :: Small(a0[k] + a1[k], B)) && (forall j | 0 <= j < LANES :: o.Bit(j)) {
      forall k | 0 <= k < i + 32 ensures Small(a0[k] + a1[k], B) {
        if k >= i { assert o.Bit(k - i); }
      }
    }
  }
}
