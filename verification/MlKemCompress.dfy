/** ML-KEM compression, and the cyclic intervals that stand for it in the masked comparison. */
module MlKemCompress {
  import opened ModArith
  import opened MlKemArith

  /** The widths in use: 1 for messages, du and dv for ciphertexts. */
  type Width = d: nat | d in {1, 4, 5, 10, 11} witness 1

  function Levels(d: Width): (p: nat)
    ensures p == (if d == 1 then 2 else if d == 4 then 16 else if d == 5 then 32 else if d == 10 then 1024 else 2048)
    ensures p == Pow2(d)
  {
    Pow2Values();
    Pow2(d)
  }

  /** Compress_d: the nearest integer to 2^d x / q, mod 2^d (section 4.2.1 of FIPS 203). */
  function Compress(x: int, d: Width): (c: int)
    ensures 0 <= c < Levels(d)
  {
    ((2 * Levels(d) * x + KQ) / (2 * KQ)) % Levels(d)
  }

  /** Decompress_d: the nearest integer to q c / 2^d. */
  function Decompress(c: int, d: Width): int { (c * KQ + Levels(d) / 2) / Levels(d) }

  /** The code's form, without a division. */
  function CompressCode(x: int, d: Width): int {
    var t := ToPositive(Barrett16(x));
    DivQ(t * Levels(d) + KQ / 2) % Levels(d)
  }

  lemma RoundedTwice(x: int, d: Width)
    requires 0 <= x < KQ
    ensures (x * Levels(d) + KQ / 2) / KQ == (2 * Levels(d) * x + KQ) / (2 * KQ)
  {
    var y := x * Levels(d);
    MulMono(0, x, Levels(d));
    assert 2 * Levels(d) * x == 2 * y;
    HalvedQuotient(y);
  }

  lemma HalvedQuotient(y: nat)
    ensures (y + KQ / 2) / KQ == (2 * y + KQ) / (2 * KQ)
  {
    var c, r := (y + KQ / 2) / KQ, (y + KQ / 2) % KQ;
    DivModUnique(2 * y + KQ, 2 * KQ, c, 2 * r + 1);
  }

  /** The code compresses every 16-bit value to Compress_d of its canonical residue. */
  lemma CompressCodeIs(x: int, d: Width)
    requires -0x8000 <= x < 0x8000
    ensures CompressCode(x, d) == Compress(x % KQ, d)
  {
    hide Barrett16, ToPositive, DivQ;
    PositiveContract(x);
    CongMod(x, KQ);
    var t := x % KQ;
    DivisionFits(t, d);
    DivQContract(t * Levels(d) + KQ / 2);
    RoundedTwice(t, d);
  }

  lemma DivisionFits(t: int, d: Width)
    requires 0 <= t < KQ
    ensures 0 <= t * Levels(d) + KQ / 2 < 8388608
  {
    MulMono(t, KQ - 1, Levels(d));
    MulMono(0, t, Levels(d));
  }

  lemma DecompressRange(c: int, d: Width)
    requires 0 <= c < Levels(d)
    ensures 0 <= Decompress(c, d) < KQ
  {
    if d == 1 { } else if d == 4 { } else if d == 5 { } else if d == 10 { } else { }
  }

  lemma DecompressNear(c: int, d: Width)
    requires 0 <= c < Levels(d)
    ensures -(Levels(d) as int) <= 2 * (Levels(d) * Decompress(c, d) - c * KQ) <= Levels(d)
  {
    if d == 1 { } else if d == 4 { } else if d == 5 { } else if d == 10 { } else { }
  }

  /** Compressing what was decompressed gives it back. */
  lemma CompressDecompress(c: int, d: Width)
    requires 0 <= c < Levels(d)
    ensures Compress(Decompress(c, d), d) == c
  {
    DecompressNear(c, d);
    hide Decompress;
    var p, x := Levels(d), Decompress(c, d);
    assert 2 * p * x == 2 * (p * x);
    DivModUnique(2 * p * x + KQ, 2 * KQ, c, 2 * (p * x - c * KQ) + KQ);
    DivModUnique(c, p, 0, c);
  }

  // ------------------------------------------------------------ the intervals

  /** Before the reduction mod 2^d. */
  function Raw(x: int, d: Width): int { (2 * Levels(d) * x + KQ) / (2 * KQ) }

  /** The least x whose rounded value reaches c. */
  function Reach(c: int, d: Width): int { (2 * KQ * c - KQ + 2 * Levels(d) - 1) / (2 * Levels(d)) }

  lemma ReachIs(x: int, c: int, d: Width)
    ensures Raw(x, d) >= c <==> x >= Reach(c, d)
  {
    if d == 1 { } else if d == 4 { } else if d == 5 { } else if d == 10 { } else { }
  }

  lemma ReachRange(c: int, d: Width)
    requires 1 <= c < Levels(d)
    ensures 0 < Reach(c, d) < Reach(c + 1, d) <= KQ
  {
    if d == 1 { } else if d == 4 { } else if d == 5 { } else if d == 10 { } else { }
  }

  lemma RawRange(x: int, d: Width)
    requires 0 <= x < KQ
    ensures 0 <= Raw(x, d) <= Levels(d) && (x > 0 ==> Raw(x, d) - 1 <= Raw(x - 1, d) <= Raw(x, d)) && Raw(0, d) == 0
  {
    RawBounds(x, Levels(d));
    RawBounds(0, Levels(d));
    if x > 0 { RawStep(x, Levels(d)); }
  }

  lemma RawBounds(x: int, p: nat)
    requires 0 <= x < KQ && 2 <= p <= 2048
    ensures 0 <= (2 * p * x + KQ) / (2 * KQ) <= p && (2 * p * 0 + KQ) / (2 * KQ) == 0
  {
    MulMono(x, KQ - 1, p);
    MulMono(0, x, p);
    assert 2 * p * x == 2 * (x * p) && 2 * p * 0 == 0;
  }

  lemma RawStep(x: int, p: nat)
    requires 2 <= p <= 2048
    ensures (2 * p * x + KQ) / (2 * KQ) - 1 <= (2 * p * (x - 1) + KQ) / (2 * KQ) <= (2 * p * x + KQ) / (2 * KQ)
  {
    assert 2 * p * (x - 1) == 2 * p * x - 2 * p;
  }

  /** The top value wraps to 0 from here on; for d = 11 nothing does. */
  lemma TopReach(d: Width)
    ensures Reach(1, d) < Reach(Levels(d), d) <= KQ && 0 < Reach(1, d)
    ensures Reach(Levels(d), d) == KQ <==> d == 11
    ensures Raw(KQ - 1, d) == if d == 11 then Levels(d) - 1 else Levels(d)
  {
    if d == 1 { } else if d == 4 { } else if d == 5 { } else if d == 10 { } else { }
  }

  /** Where Compress_d takes the value c. */
  lemma CompressAt(x: int, d: Width)
    requires 0 <= x < KQ
    ensures Compress(x, d) == if Raw(x, d) == Levels(d) then 0 else Raw(x, d)
  {
    RawRange(x, d);
    hide Raw;
    var p := Levels(d);
    if Raw(x, d) == p { DivModUnique(p, p, 1, 0); } else { DivModUnique(Raw(x, d), p, 0, Raw(x, d)); }
    assert Compress(x, d) == Raw(x, d) % p by { CompressIsRaw(x, d); }
  }

  lemma CompressIsRaw(x: int, d: Width)
    ensures Compress(x, d) == Raw(x, d) % Levels(d)
  {
  }

  function Min(a: int, b: int): int { if a <= b then a else b }
  function Over(a: int, b: int): int { if a > b then a - b else 0 }

  /** How many of the residues below x compress to c. */
  function Count(c: int, x: int, d: Width): int {
    if c == 0 then Min(x, Reach(1, d)) + Over(x, Reach(Levels(d), d))
    else Over(Min(x, Reach(c + 1, d)), Reach(c, d))
  }

  /** The start seen so far of the residues that compress to c. */
  function StartOf(c: int, x: int, d: Width): int {
    var a := if c == 0 then Reach(Levels(d), d) else Reach(c, d);
    if x > a then a else 0
  }

  predicate Tables(lo: seq<int>, w: seq<int>, x: int, d: Width) {
    |lo| == |w| == Levels(d)
    && forall c | 0 <= c < Levels(d) :: w[c] == Count(c, x, d) && lo[c] == StartOf(c, x, d)
  }

  lemma CountScalar(x: int, c: int, p: int, r: int, a1: int, ap: int, ac: int, an: int)
    requires 0 <= x && 0 <= c < p && 0 <= r <= p && (r >= p <==> x >= ap) && (r >= 1 <==> x >= a1) && a1 < ap
    requires c > 0 ==> (r >= c <==> x >= ac) && (r >= c + 1 <==> x >= an) && ac < an
    ensures var cx := if r == p then 0 else r;
      var now := if c == 0 then Min(x, a1) + Over(x, ap) else Over(Min(x, an), ac);
      var next := if c == 0 then Min(x + 1, a1) + Over(x + 1, ap) else Over(Min(x + 1, an), ac);
      next == now + (if c == cx then 1 else 0)
  {
  }

  lemma StartScalar(x: int, c: int, p: int, r: int, rp: int, a: int)
    requires 0 < x && 0 <= c < p && 2 <= p && 0 <= rp <= r <= p && r - 1 <= rp
    requires (if c == 0 then r >= p else r >= c) <==> x >= a
    requires (if c == 0 then rp >= p else rp >= c) <==> x - 1 >= a
    ensures var cx := if r == p then 0 else r;
      var prev := if rp == p then 0 else rp;
      (if x + 1 > a then a else 0) == if c == cx && prev != c then x else if x > a then a else 0
  {
  }

  /** One residue more: its value's count grows. */
  lemma CountStep(x: int, c: int, d: Width)
    requires 0 <= x < KQ && 0 <= c < Levels(d)
    ensures Count(c, x + 1, d) == Count(c, x, d) + (if c == Compress(x, d) then 1 else 0)
  {
    hide Raw, Reach, Compress, Min, Over;
    CompressAt(x, d);
    RawRange(x, d);
    TopReach(d);
    ReachIs(x, Levels(d), d);
    ReachIs(x, 1, d);
    if c > 0 {
      ReachRange(c, d);
      ReachIs(x, c, d);
      ReachIs(x, c + 1, d);
    }
    CountScalar(x, c, Levels(d), Raw(x, d), Reach(1, d), Reach(Levels(d), d), Reach(c, d), Reach(c + 1, d));
  }

  /** And its start is where the value changes. */
  lemma StartStep(x: int, c: int, d: Width)
    requires 0 <= x < KQ && 0 <= c < Levels(d)
    ensures var prev := Compress((x + KQ - 1) % KQ, d);
      StartOf(c, x + 1, d) == if c == Compress(x, d) && prev != c then x else StartOf(c, x, d)
  {
    hide Raw, Reach, Compress;
    CompressAt(x, d);
    RawRange(x, d);
    TopReach(d);
    if x == 0 {
      DivModUnique(KQ - 1, KQ, 0, KQ - 1);
      CompressAt(KQ - 1, d);
      if c > 0 { ReachRange(c, d); }
    } else {
      DivModUnique(x + KQ - 1, KQ, 1, x - 1);
      CompressAt(x - 1, d);
      RawRange(x - 1, d);
      var t := if c == 0 then Levels(d) else c;
      ReachIs(x, t, d);
      ReachIs(x - 1, t, d);
      StartScalar(x, c, Levels(d), Raw(x, d), Raw(x - 1, d), Reach(t, d));
    }
  }

  /** The tables by one pass over the residues. */
  method CompressIntervals(d: Width) returns (lo: seq<int>, w: seq<int>)
    ensures Tables(lo, w, KQ, d)
  {
    hide Compress, Count, StartOf, CompressCode;
    var n := Levels(d);
    lo, w := seq(n, _ => 0), seq(n, _ => 0);
    forall c | 0 <= c < n ensures Count(c, 0, d) == 0 && StartOf(c, 0, d) == 0 { TablesStart(c, d); }
    for x := 0 to KQ
      invariant Tables(lo, w, x, d)
    {
      CompressCodeIs(x, d);
      CompressCodeIs((x + KQ - 1) % KQ, d);
      Canonical(x);
      var c := CompressCode(x, d);
      var prev := CompressCode((x + KQ - 1) % KQ, d);
      forall e | 0 <= e < n
        ensures Count(e, x + 1, d) == Count(e, x, d) + (if e == c then 1 else 0)
        ensures StartOf(e, x + 1, d) == if e == c && prev != e then x else StartOf(e, x, d)
      {
        CountStep(x, e, d);
        StartStep(x, e, d);
      }
      w := w[c := w[c] + 1];
      if prev != c { lo := lo[c := x]; }
    }
  }

  lemma Canonical(x: int)
    requires 0 <= x < KQ
    ensures x % KQ == x && 0 <= (x + KQ - 1) % KQ < KQ && ((x + KQ - 1) % KQ) % KQ == (x + KQ - 1) % KQ
  {
    DivModUnique(x, KQ, 0, x);
    CongMod(x + KQ - 1, KQ);
    DivModUnique((x + KQ - 1) % KQ, KQ, 0, (x + KQ - 1) % KQ);
  }

  lemma TablesStart(c: int, d: Width)
    requires 0 <= c < Levels(d)
    ensures Count(c, 0, d) == 0 && StartOf(c, 0, d) == 0
  {
    TopReach(d);
    if c > 0 { ReachRange(c, d); }
  }

  lemma IntervalScalar(x: int, c: int, p: int, r: int, a1: int, ap: int, ac: int, an: int, lo: int, w: int)
    requires 0 <= x < KQ && 0 <= c < p && 0 <= r <= p && (r >= p <==> x >= ap) && (r >= 1 <==> x >= a1)
    requires 0 < a1 < ap <= KQ
    requires c > 0 ==> (r >= c <==> x >= ac) && (r >= c + 1 <==> x >= an) && 0 < ac < an <= KQ
    requires w == (if c == 0 then Min(KQ, a1) + Over(KQ, ap) else Over(Min(KQ, an), ac))
    requires lo == if c == 0 then (if KQ > ap then ap else 0) else (if KQ > ac then ac else 0)
    ensures 0 <= lo <= KQ && 0 < w <= KQ
    ensures (if x < lo then x - lo + KQ else x - lo) < w <==> (if r == p then 0 else r) == c
  {
  }

  /** The residues that compress to c are exactly the cyclic interval of the tables. */
  lemma IntervalIsCompress(lo: seq<int>, w: seq<int>, d: Width, x: int, c: int)
    requires Tables(lo, w, KQ, d) && 0 <= x < KQ && 0 <= c < Levels(d)
    ensures 0 <= lo[c] <= KQ && 0 < w[c] <= KQ
    ensures (x - lo[c]) % KQ < w[c] <==> Compress(x, d) == c
  {
    hide Raw, Reach, Compress, Min, Over;
    TablesAt(lo, w, c, d);
    CompressAt(x, d);
    RawRange(x, d);
    TopReach(d);
    ReachIs(x, Levels(d), d);
    ReachIs(x, 1, d);
    if c > 0 {
      ReachRange(c, d);
      ReachIs(x, c, d);
      ReachIs(x, c + 1, d);
    }
    IntervalScalar(x, c, Levels(d), Raw(x, d), Reach(1, d), Reach(Levels(d), d), Reach(c, d), Reach(c + 1, d), lo[c],
      w[c]);
    var y := x - lo[c];
    DivModUnique(y, KQ, if y < 0 then -1 else 0, if y < 0 then y + KQ else y);
  }

  lemma TablesAt(lo: seq<int>, w: seq<int>, c: int, d: Width)
    requires Tables(lo, w, KQ, d) && 0 <= c < Levels(d)
    ensures |lo| == |w| == Levels(d) && w[c] == Count(c, KQ, d) && lo[c] == StartOf(c, KQ, d)
  {
  }

  lemma BitOfCompressed(x: int)
    requires 0 <= x < KQ
    ensures Compress(x, 1) == if 833 <= x <= 2496 then 1 else 0
  {
  }

  lemma OneBitOf(x: int)
    requires x == 0 || x == 1
    ensures BitOf(x, 0) == (x == 1)
  {
    assert Pow2(0) == 1;
  }
}
