/** Arithmetic shares mod q: sums, interval tests, decoding of one bit, and the passage
    from Boolean to arithmetic shares. */
module MaskedConversions {
  import opened ModArith
  import opened Bits
  import opened MaskedGadgets

  /** 32 arithmetic shares of one kind: canonical residues. */
  predicate Residues(a: seq<int>, q: nat) {
    |a| == LANES && forall j | 0 <= j < LANES :: 0 <= a[j] < q
  }

  /** v + q when v is negative: the sign bit selects the addend. */
  function CaddMod(v: int, q: nat): (r: int)
    ensures -(q as int) <= v < q ==> 0 <= r < q && (r == v || r == v + q)
  {
    v + (if v < 0 then q else 0)
  }

  /** floor(r q / 2^64) for the 64-bit number r of two stream words, the first one high. */
  function Residue64(rng: Rng, at: nat, q: nat): int {
    ((ToNat(rng.stream(at)) * 0x1_0000_0000 + ToNat(rng.stream(at + 1))) * q) / 0x1_0000_0000_0000_0000
  }

  /** A residue from two words of the stream, computed in 32-bit halves. */
  method RandMod(rng: Rng, q: nat) returns (v: nat)
    requires 0 < q < 0x8000_0000
    modifies rng
    ensures v < q && rng.pos == old(rng.pos) + 2
    ensures v == Residue64(rng, old(rng.pos), q)
  {
    hide ToNat, Pow2;
    var h := rng.U32();
    var l := rng.U32();
    ToNatBound(h);
    ToNatBound(l);
    Pow2Word();
    v := HighProduct(ToNat(h), ToNat(l), q);
  }

  /** The product of a 64-bit number by q, above 2^64, from its 32-bit halves. */
  method HighProduct(h: nat, l: nat, q: nat) returns (v: nat)
    requires h < 0x1_0000_0000 && l < 0x1_0000_0000 && 0 < q
    ensures v < q && v == ((h * 0x1_0000_0000 + l) * q) / 0x1_0000_0000_0000_0000
  {
    RandHalves(h, l, q);
    var lo := (l * q) / 0x1_0000_0000;
    var hi := h * q + lo;
    v := hi / 0x1_0000_0000;
  }

  lemma Pow2Word()
    ensures Pow2(32) == 0x1_0000_0000
  {
    Pow2Values();
    Pow2Add(16, 16);
    Pow2Add(8, 8);
  }

  lemma RandHalves(h: nat, l: nat, q: nat)
    requires h < 0x1_0000_0000 && l < 0x1_0000_0000 && 0 < q
    ensures var v := (h * q + (l * q) / 0x1_0000_0000) / 0x1_0000_0000;
      0 <= v < q && v == ((h * 0x1_0000_0000 + l) * q) / 0x1_0000_0000_0000_0000
  {
    var hq, lq := h * q, l * q;
    assert 0 <= hq && 0 <= lq;
    assert (h * 0x1_0000_0000 + l) * q == hq * 0x1_0000_0000 + lq;
    MulMono(l, 0xFFFF_FFFF, q);
    MulMono(h, 0xFFFF_FFFF, q);
    HalvesQuotient(hq, lq, q);
  }

  lemma HalvesQuotient(hq: nat, lq: nat, q: nat)
    requires hq <= 0xFFFF_FFFF * q && lq <= 0xFFFF_FFFF * q && 0 < q
    ensures var v := (hq + lq / 0x1_0000_0000) / 0x1_0000_0000;
      0 <= v < q && v == (hq * 0x1_0000_0000 + lq) / 0x1_0000_0000_0000_0000
  {
    var lo, lr := lq / 0x1_0000_0000, lq % 0x1_0000_0000;
    var v, vr := (hq + lo) / 0x1_0000_0000, (hq + lo) % 0x1_0000_0000;
    DivModUnique(hq * 0x1_0000_0000 + lq, 0x1_0000_0000_0000_0000, v, vr * 0x1_0000_0000 + lr);
  }

  /** The integer sum of two arithmetic shares, as a Boolean number. */
  method ShareSum(a0: seq<int>, a1: seq<int>, rng: Rng, M: Modulus) returns (t: Bs)
    requires M.Valid() && Residues(a0, M.q) && Residues(a1, M.q)
    modifies rng
    ensures t.Fits(M.bits)
    ensures forall j | 0 <= j < LANES :: t.Low(j, M.bits) == a0[j] + a1[j]
  {
    hide Lane, Pow2;
    var x := BooleanOfShare(a0, M.bits, rng);
    var y := BooleanOfShare(a1, M.bits, rng);
    t := SecAdd(x, y, M.bits, rng);
    Pow2Double(M.bits);
    forall j | 0 <= j < LANES
      ensures t.Low(j, M.bits) == a0[j] + a1[j]
    {
      FitsLow(x, j, M.bits);
      FitsLow(y, j, M.bits);
      FitsLow(t, j, M.bits);
      DivModUnique(a0[j], Pow2(M.bits), 0, a0[j]);
      DivModUnique(a1[j], Pow2(M.bits), 0, a1[j]);
      DivModUnique(a0[j] + a1[j], Pow2(M.bits), 0, a0[j] + a1[j]);
    }
  }

  /** T = s + a with s the shifted share: the interval test on T decides it mod q. */
  lemma IntervalOfSum(a0: int, a1: int, lo: int, w: int, q: nat)
    requires 0 <= a0 < q && 0 <= a1 < q && 0 <= lo <= q && 0 < w <= q
    ensures var t := CaddMod(a0 - lo, q) + a1;
      ((t < w) != (t >= q && t < q + w)) <==> (a0 + a1 - lo) % q < w
  {
    var t := CaddMod(a0 - lo, q) + a1;
    var s := a0 + a1 - lo;
    if t < q {
      DivModUnique(s, q, if a0 < lo then -1 else 0, t);
    } else {
      DivModUnique(s, q, if a0 < lo then 0 else 1, t - q);
    }
  }

  /** Lane j of o: the secret a0 + a1 lies in the cyclic interval of length w_j from lo_j. */
  method SecInInterval(a0: seq<int>, a1: seq<int>, lo: seq<int>, w: seq<int>, rng: Rng, M: Modulus) returns (o: Share)
    requires M.Valid() && Residues(a0, M.q) && Residues(a1, M.q)
    requires |lo| == LANES && forall j | 0 <= j < LANES :: 0 <= lo[j] <= M.q
    requires |w| == LANES && forall j | 0 <= j < LANES :: 0 < w[j] <= M.q
    modifies rng
    ensures forall j | 0 <= j < LANES :: o.Bit(j) == ((a0[j] + a1[j] - lo[j]) % M.q < w[j])
  {
    hide Lane, Pow2;
    var s0 := ShiftShares(a0, lo, M.q);
    var t := ShareSum(s0, a1, rng, M);
    var cqw := seq(LANES, j requires 0 <= j < LANES => M.q + w[j]);
    var a := SecLess(t, w, rng, M);
    var b := SecLessConst(t, M.q, rng, M);
    var c := SecLess(t, cqw, rng, M);
    var nb := MNot(b);
    var r := rng.U32();
    var d := MAnd(nb, c, r);
    o := MXor(a, d);
    hide CaddMod;
    forall j | 0 <= j < LANES
      ensures o.Bit(j) == ((a0[j] + a1[j] - lo[j]) % M.q < w[j])
    {
      IntervalOfSum(a0[j], a1[j], lo[j], w[j], M.q);
    }
  }

  /** One share moved down by the lanes' starting points. */
  method ShiftShares(a: seq<int>, lo: seq<int>, q: nat) returns (s: seq<int>)
    requires Residues(a, q) && |lo| == LANES && forall j | 0 <= j < LANES :: 0 <= lo[j] <= q
    ensures Residues(s, q) && forall j | 0 <= j < LANES :: s[j] == CaddMod(a[j] - lo[j], q)
  {
    s := seq(LANES, j requires 0 <= j < LANES && |a| == |lo| == LANES => CaddMod(a[j] - lo[j], q));
  }

  /** Compress_1 on a sum of shares: x is T or T - q. */
  lemma DecodeOfSum(a0: int, a1: int)
    requires 0 <= a0 < 3329 && 0 <= a1 < 3329
    ensures var t := a0 + a1;
      ((!(t < 833) && t < 2497) != (!(t < 4162) && t < 5826)) <==> 833 <= (a0 + a1) % 3329 <= 2496
  {
    ModBelowTwice(a0 + a1, 3329);
  }

  /** One message bit per lane: set exactly when the coefficient is nearer q/2 than 0. */
  method SecDecode1(a0: seq<int>, a1: seq<int>, rng: Rng) returns (o: Share)
    requires Residues(a0, KEM.q) && Residues(a1, KEM.q)
    modifies rng
    ensures forall j | 0 <= j < LANES :: o.Bit(j) == (833 <= (a0[j] + a1[j]) % 3329 <= 2496)
  {
    hide Lane, Pow2;
    ModuliValid();
    var t := ShareSum(a0, a1, rng, KEM);
    var l0 := SecLessConst(t, 833, rng, KEM);
    var l1 := SecLessConst(t, 2497, rng, KEM);
    var l2 := SecLessConst(t, 4162, rng, KEM);
    var l3 := SecLessConst(t, 5826, rng, KEM);
    var n1 := MNot(l0);
    var r := rng.U32();
    var p := MAnd(n1, l1, r);
    var n3 := MNot(l2);
    r := rng.U32();
    var q := MAnd(n3, l3, r);
    o := MXor(p, q);
    forall j | 0 <= j < LANES
      ensures o.Bit(j) == (833 <= (a0[j] + a1[j]) % 3329 <= 2496)
    {
      DecodeOfSum(a0[j], a1[j]);
    }
  }

  /** Lane j of a Boolean number, its shares recombined bit by bit. */
  method Recombine(z: Bs, bits: nat, j: nat) returns (val: nat)
    requires z.Valid() && bits <= MAX_BITS && j < LANES
    ensures val == z.Low(j, bits)
  {
    val := 0;
    for b := 0 to bits
      invariant val == z.Low(j, b)
    {
      var bit := z.w0[b][j] != z.w1[b][j];
      val := val + B2I(bit) * Pow2(b);
    }
  }

  lemma UnshareResidue(v: nat, r: nat, q: nat)
    requires r < q && v < q
    ensures (v + (q - r) < 2 * q || r == 0) && ((v + (q - r)) % q + r) % q == v
  {
    if v >= r {
      DivModUnique(v + (q - r), q, 1, v - r);
      DivModUnique(v, q, 0, v);
    } else {
      DivModUnique(v + (q - r), q, 0, v + q - r);
      DivModUnique(v + q, q, 1, v);
    }
  }

  /** Boolean to arithmetic shares: a1 is fresh, a0 = (v - a1) mod q is computed masked. */
  method SecB2A(v: Bs, rng: Rng, M: Modulus) returns (a0: seq<int>, a1: seq<int>)
    requires M.Valid() && M.q < 0x8000_0000 && v.Valid()
    requires forall j | 0 <= j < LANES :: v.Low(j, M.bits) < M.q
    modifies rng
    ensures Residues(a0, M.q) && Residues(a1, M.q)
    ensures forall j | 0 <= j < LANES :: (a0[j] + a1[j]) % M.q == v.Low(j, M.bits)
    ensures forall j | 0 <= j < LANES :: a1[j] == Residue64(rng, old(rng.pos) + 2 * j, M.q)
  {
    hide Lane, Pow2, Residue64;
    Pow2Double(M.bits);
    var r: seq<int> := [];
    for j := 0 to LANES
      invariant |r| == j && forall i | 0 <= i < j :: 0 <= r[i] < M.q
      invariant rng.pos == old(rng.pos) + 2 * j
      invariant forall i | 0 <= i < j :: r[i] == Residue64(rng, old(rng.pos) + 2 * i, M.q)
    {
      var x := RandMod(rng, M.q);
      r := r + [x];
    }
    var nr := seq(LANES, j requires 0 <= j < LANES => M.q - r[j]);
    var m := BooleanOfShare(nr, M.bits, rng);
    var y := SecAdd(v, m, M.bits, rng);
    forall j | 0 <= j < LANES
      ensures y.Low(j, M.bits) == v.Low(j, M.bits) + (M.q - r[j]) < 2 * M.q
    {
      FitsLow(m, j, M.bits);
      FitsLow(y, j, M.bits);
      DivModUnique(nr[j], Pow2(M.bits), 0, nr[j]);
      DivModUnique(v.Low(j, M.bits) + nr[j], Pow2(M.bits), 0, v.Low(j, M.bits) + nr[j]);
    }
    var z := SecReduceQ(y, rng, M);
    a0 := [];
    for j := 0 to LANES
      invariant |a0| == j
      invariant forall i | 0 <= i < j :: a0[i] == z.Low(i, M.bits)
    {
      var val := Recombine(z, M.bits, j);
      a0 := a0 + [val];
    }
    a1 := r;
    forall j | 0 <= j < LANES
      ensures 0 <= a0[j] < M.q && (a0[j] + a1[j]) % M.q == v.Low(j, M.bits)
    {
      FitsLow(z, j, M.bits);
      UnshareResidue(v.Low(j, M.bits), r[j], M.q);
    }
  }

  // ------------------------------------------------------------ all lanes at once

  predicate EveryNth(x: Share, j: nat, s: nat)
    requires 0 < s
  {
    forall i | 0 <= i < LANES && i % s == j :: x.Bit(i)
  }

  lemma RemainderSplit(i: nat, j: nat, k: nat)
    requires j < k
    ensures i % k == j <==> i % (2 * k) == j || i % (2 * k) == j + k
  {
    var q, r := i / k, i % k;
    var h, b := q / 2, q % 2;
    assert i == k * q + r;
    assert k * q == k * (2 * h + b) == h * (2 * k) + k * b;
    assert b == 0 || b == 1;
    DivModUnique(i, 2 * k, h, k * b + r);
  }

  lemma EveryNthSplit(x: Share, j: nat, k: nat)
    requires k in {1, 2, 4, 8, 16} && j < k
    ensures EveryNth(x, j, k) == (EveryNth(x, j, 2 * k) && EveryNth(x, j + k, 2 * k))
  {
    forall i | 0 <= i < LANES
      ensures i % k == j <==> i % (2 * k) == j || i % (2 * k) == j + k
    {
      RemainderSplit(i, j, k);
    }
  }

  /** Bit 0 of o: the AND of all 32 lanes, by five halvings. */
  method SecAllLanes(x: Share, rng: Rng) returns (o: Share)
    modifies rng
    ensures o.Bit(0) == (forall j | 0 <= j < LANES :: x.Bit(j))
    ensures forall j | 0 < j < LANES :: !o.Bit(j)
  {
    var a := x;
    var k := 16;
    while k >= 1
      invariant k in {0, 1, 2, 4, 8, 16}
      invariant k >= 1 ==> forall j | 0 <= j < 2 * k :: a.Bit(j) == EveryNth(x, j, 2 * k)
      invariant k == 0 ==> a.Bit(0) == EveryNth(x, 0, 1)
      decreases k
    {
      var t := MShr(a, k);
      var r := rng.U32();
      ghost var before := a;
      a := MAnd(a, t, r);
      forall j | 0 <= j < k
        ensures a.Bit(j) == EveryNth(x, j, k)
      {
        EveryNthSplit(x, j, k);
      }
      k := k / 2;
    }
    o := MAndPub(a, Zeros(32)[0 := true]);
    assert EveryNth(x, 0, 1) == (forall j | 0 <= j < LANES :: x.Bit(j)) by {
      assert forall i | 0 <= i < LANES :: i % 1 == 0;
    }
  }

  /** Shares of an all-lanes AND accumulated over many words. */
  class AllOk {
    var a: Share

    ghost predicate AllSet() reads this {
      forall j | 0 <= j < LANES :: a.Bit(j)
    }

    constructor ()
      ensures AllSet()
    {
      a := Share(Ones(32), Zeros(32));
    }

    method Add(o: Share, rng: Rng)
      modifies this, rng
      ensures AllSet() == (old(AllSet()) && forall j | 0 <= j < LANES :: o.Bit(j))
      ensures forall j | 0 <= j < LANES :: a.Bit(j) == (old(a).Bit(j) && o.Bit(j))
    {
      var r := rng.U32();
      a := MAnd(a, o, r);
    }

    /** The one bit the accumulated tests reveal. */
    method Reveal(rng: Rng) returns (ok: bool)
      modifies rng
      ensures ok == AllSet()
    {
      var b := SecAllLanes(a, rng);
      ok := b.s0[0] != b.s1[0];
    }
  }
}
