/** An unbiased draw below s from 64-bit words: the written-out 64 x 64 -> 128 multiplication, the
    rejection loop, and how many words give each result. */
module BoundedDraw {
  import opened ModArith

  const W32: nat := 0x1_0000_0000
  const W64: nat := 0x1_0000_0000_0000_0000

  /** The high and low words of a product, from four 32 x 32 products. */
  function Mul128(x: nat, y: nat): (int, int)
    requires x < W64 && y < W64
  {
    var x0, x1, y0, y1 := x % W32, x / W32, y % W32, y / W32;
    var p00, p01, p10, p11 := x0 * y0, x0 * y1, x1 * y0, x1 * y1;
    var mid := (p00 / W32 + p01 % W32 + p10 % W32) % W64;
    ((p11 + p01 / W32 + p10 / W32 + mid / W32) % W64, (mid * W32) % W64 + p00 % W32)
  }

  lemma PartProduct(a: nat, b: nat)
    requires a < W32 && b < W32
    ensures 0 <= a * b <= (W32 - 1) * (W32 - 1)
  {
    var m := W32 - 1;
    MulMono(a, m, b);
    MulMono(b, m, m);
    MulMono(0, a, b);
    assert m * b == b * m;
  }

  /** The four parts add up to the product. */
  lemma PartsAdd(x0: int, x1: int, y0: int, y1: int)
    ensures (x1 * W32 + x0) * (y1 * W32 + y0) == (x1 * y1) * W64 + (x0 * y1 + x1 * y0) * W32 + x0 * y0
  {
  }

  lemma Carries(p00: nat, p01: nat, p10: nat, p11: nat)
    requires p00 <= (W32 - 1) * (W32 - 1) && p01 <= (W32 - 1) * (W32 - 1)
    requires p10 <= (W32 - 1) * (W32 - 1) && p11 <= (W32 - 1) * (W32 - 1)
    ensures var mid := p00 / W32 + p01 % W32 + p10 % W32;
      var hi := p11 + p01 / W32 + p10 / W32 + mid / W32;
      mid < W64 && hi < W64
      && p11 * W64 + (p01 + p10) * W32 + p00 == hi * W64 + ((mid * W32) % W64 + p00 % W32)
      && 0 <= (mid * W32) % W64 + p00 % W32 < W64
  {
    var mid := p00 / W32 + p01 % W32 + p10 % W32;
    DivModUnique(mid * W32, W64, mid / W32, (mid % W32) * W32);
  }

  /** No sum overflows, and the two words are the product. */
  lemma Mul128Is(x: nat, y: nat)
    requires x < W64 && y < W64
    ensures var (hi, lo) := Mul128(x, y);
      x * y == hi * W64 + lo && 0 <= hi && 0 <= lo < W64
  {
    var x0, x1, y0, y1 := x % W32, x / W32, y % W32, y / W32;
    PartProduct(x0, y0);
    PartProduct(x0, y1);
    PartProduct(x1, y0);
    PartProduct(x1, y1);
    PartsAdd(x0, x1, y0, y1);
    var p00, p01, p10, p11 := x0 * y0, x0 * y1, x1 * y0, x1 * y1;
    Carries(p00, p01, p10, p11);
    var mid := p00 / W32 + p01 % W32 + p10 % W32;
    DivModUnique(mid, W64, 0, mid);
    var hi := p11 + p01 / W32 + p10 / W32 + mid / W32;
    DivModUnique(hi, W64, 0, hi);
  }

  /** floor(x s / 2^64) and x s mod 2^64. */
  lemma HighLow(x: nat, s: nat)
    requires x < W64 && 0 < s < W64
    ensures Mul128(x, s).0 == x * s / W64 < s && Mul128(x, s).1 == x * s % W64
  {
    hide Mul128;
    Mul128Is(x, s);
    var (hi, lo) := Mul128(x, s);
    DivModUnique(x * s, W64, hi, lo);
    if hi >= s {
      MulMono(s, hi, W64);
      MulMono(x, W64 - 1, s);
    }
  }

  /** The word the loop keeps, and what it returns. */
  predicate Accepts(x: nat, s: nat, v: nat)
    requires 0 < s
  {
    x * s / W64 == v && x * s % W64 >= W64 % s
  }

  lemma Threshold(s: nat)
    requires 0 < s < W64
    ensures 0 <= (W64 - s) % s == W64 % s < s
  {
    var q, r := W64 / s, W64 % s;
    assert W64 == s * q + r && (q - 1) * s == s * q - s;
    CongMod(W64, s);
    DivModUnique(W64 - s, s, q - 1, r);
  }

  predicate Rejects(x: nat, s: nat)
    requires 0 < s
  {
    x * s % W64 < W64 % s
  }

  lemma Kept(x: nat, s: nat)
    requires 0 < s && x * s % W64 >= W64 % s && 0 <= x * s / W64
    ensures Accepts(x, s, x * s / W64)
  {
    CongMod(W64, s);
  }

  /** The first kept word of the tape decides; `ok` says there was one. */
  method Draw(tape: seq<nat>, s: nat) returns (ok: bool, v: nat, used: nat)
    requires 0 < s < W64 && forall i | 0 <= i < |tape| :: tape[i] < W64
    ensures used <= |tape| && (ok ==> 0 < used && v < s && Accepts(tape[used - 1], s, v)) && (!ok ==> used == |tape|)
    ensures forall i | 0 <= i < (if ok then used - 1 else used) :: Rejects(tape[i], s)
  {
    hide Mul128, Accepts, Rejects;
    used, v, ok := 0, 0, false;
    if tape == [] { return; }
    var hi, lo := Multiply(tape[0], s);
    used := 1;
    if lo < s {
      var t := (W64 - s) % s;   // 0 - s in 64 bits
      Threshold(s);
      while lo < t
        invariant 1 <= used <= |tape| && hi == tape[used - 1] * s / W64 && lo == tape[used - 1] * s % W64 && 0 <= hi < s
        invariant forall i | 0 <= i < used - 1 :: Rejects(tape[i], s)
        decreases |tape| - used
      {
        RejectsIntro(tape[used - 1], s);
        if used == |tape| { return; }
        hi, lo := Multiply(tape[used], s);
        used := used + 1;
      }
    }
    v, ok := hi, true;
    Threshold(s);
    Kept(tape[used - 1], s);
  }

  lemma RejectsIntro(x: nat, s: nat)
    requires 0 < s && x * s % W64 < W64 % s
    ensures Rejects(x, s)
  {
  }

  method Multiply(x: nat, s: nat) returns (hi: nat, lo: nat)
    requires x < W64 && 0 < s < W64
    ensures hi == x * s / W64 < s && lo == x * s % W64
  {
    hide Mul128;
    HighLow(x, s);
    hi, lo := Mul128(x, s).0, Mul128(x, s).1;
  }

  // ------------------------------------------------------------ the count

  /** The words that give v. */
  function Accepted(s: nat, v: nat): (r: set<nat>)
    requires 0 < s
  {
    set x: nat | x < W64 && Accepts(x, s, v)
  }

  function Interval(a: nat, n: nat): (r: set<nat>)
    ensures forall x: nat :: x in r <==> a <= x < a + n
  {
    if n == 0 then {} else Interval(a, n - 1) + {a + n - 1}
  }

  lemma {:induction false} IntervalSize(a: nat, n: nat)
    ensures |Interval(a, n)| == n
  {
    if n > 0 {
      IntervalSize(a, n - 1);
      var r := Interval(a, n - 1);
      assert a + n - 1 !in r;
      assert |r + {a + n - 1}| == |r| + 1;
    }
  }

  /** The least x with x s at least b. */
  function Least(b: nat, s: nat): int
    requires 0 < s
  {
    (b + s - 1) / s
  }

  lemma LeastIs(b: nat, s: nat, x: int)
    requires 0 < s
    ensures 0 <= Least(b, s) && (x >= Least(b, s) <==> x * s >= b)
  {
    var c := Least(b, s);
    var r := (b + s - 1) % s;
    assert b + s - 1 == s * c + r;
    CongMod(b + s - 1, s);
    if c < 0 { MulMono(c, -1, s); }
    if x >= c { MulMono(c, x, s); } else { MulMono(x, c - 1, s); assert (c - 1) * s == s * c - s; }
  }

  /** Accepting is lying in one stretch of floor(2^64 / s) words. */
  lemma AcceptsStretch(s: nat, v: nat, x: nat)
    requires 0 < s < W64 && v < s
    ensures 0 <= Least(v * W64 + W64 % s, s) && 0 <= W64 / s
    ensures x < W64 && Accepts(x, s, v) <==> Least(v * W64 + W64 % s, s) <= x < Least(v * W64 + W64 % s, s) + W64 / s
  {
    var t, k := W64 % s, W64 / s;
    CongMod(W64, s);
    assert W64 == s * k + t;
    var b := v * W64 + t;
    var c := Least(b, s);
    LeastIs(b, s, x);
    LeastIs(b, s, x - k);
    assert (x - k) * s == x * s - s * k;
    // x - k < c  iff  x s < v W64 + W64
    assert x >= c <==> x * s >= b;
    assert x - k < c <==> x * s < v * W64 + W64;
    InBlock(x * s, v, t);
    if x * s < v * W64 + W64 && x >= W64 {
      MulMono(v + 1, s, W64);
      MulMono(W64, x, s);
    }
    if k < 0 { MulMono(k, -1, s); }
  }

  lemma InBlock(y: nat, v: nat, t: nat)
    requires t < W64
    ensures v * W64 + t <= y < v * W64 + W64 <==> y / W64 == v && y % W64 >= t
  {
    if v * W64 + t <= y < v * W64 + W64 { DivModUnique(y, W64, v, y - v * W64); }
  }

  /** Every result below s comes from exactly floor(2^64 / s) of the words: the draw is unbiased. */
  lemma Unbiased(s: nat, v: nat)
    requires 0 < s < W64 && v < s
    ensures |Accepted(s, v)| == W64 / s
  {
    hide Accepts, Least;
    AcceptsStretch(s, v, 0);
    var c, k := Least(v * W64 + W64 % s, s), W64 / s;
    forall x: nat ensures x in Accepted(s, v) <==> x in Interval(c, k) { AcceptsStretch(s, v, x); }
    assert Accepted(s, v) == Interval(c, k);
    IntervalSize(c, k);
  }

  /** No word gives two results, and none gives a result outside the range. */
  lemma OneResult(x: nat, s: nat, u: nat, v: nat)
    requires 0 < s < W64 && x < W64 && Accepts(x, s, u) && Accepts(x, s, v)
    ensures u == v < s
  {
    hide Mul128;
    HighLow(x, s);
  }

  /** A word is dropped exactly when it stands for no result. */
  lemma RejectsIff(x: nat, s: nat)
    requires 0 < s < W64 && x < W64
    ensures Rejects(x, s) <==> forall v: nat :: !Accepts(x, s, v)
  {
    hide Mul128;
    HighLow(x, s);
    if !Rejects(x, s) {
      hide Accepts;
      Kept(x, s);
    }
  }
}
