/** The duplicated RM(1,7) code: encoding by masks, soft decoding by seven in-place Hadamard
    passes and a branch-free peak search, and how many flipped bits the decoder absorbs. */
module ReedMuller {
  import opened ModArith
  import opened Bits

  /** l without its k low bits. */
  function HighBits(l: nat, k: nat): nat { if k == 0 then l else HighBits(l, k - 1) / 2 }

  /** Bit k of an index. */
  predicate IndexBit(q: nat, k: nat) { HighBits(q, k) % 2 == 1 }

  /** The t low bits are the same. */
  predicate Agree(l: nat, q: nat, t: nat) {
    t == 0 || (Agree(l, q, t - 1) && IndexBit(l, t - 1) == IndexBit(q, t - 1))
  }

  // ------------------------------------------------------------ characters

  /** The parity of the bits l and b share. */
  predicate Shared(l: nat, b: nat)
    decreases b
  {
    if b == 0 then false else Shared(l / 2, b / 2) != (l % 2 == 1 && b % 2 == 1)
  }

  lemma SharedStep(l: nat, b: nat, d: nat)
    requires d < 2
    ensures Shared(l, 2 * b + d) == (Shared(l / 2, b) != (l % 2 == 1 && d == 1))
  {
    if 2 * b + d > 0 {
      assert (2 * b + d) / 2 == b && (2 * b + d) % 2 == d;
    }
  }

  /** An entry, 0 past the end. */
  function At(e: seq<int>, i: nat): int { if i < |e| then e[i] else 0 }

  // ------------------------------------------------------------ the transform

  /** The signed sum over the t low index bits at the t low bits of frequency q, the high index
      bits being r. */
  function Part(e: seq<int>, t: nat, q: nat, r: nat): int
    decreases t
  {
    if t == 0 then At(e, r)
    else if IndexBit(q, t - 1) then Part(e, t - 1, q, 2 * r) - Part(e, t - 1, q, 2 * r + 1)
    else Part(e, t - 1, q, 2 * r) + Part(e, t - 1, q, 2 * r + 1)
  }

  function Abs(x: int): nat { if x < 0 then -x else x }

  /** The absolute sum over the same indices. */
  function Mass(e: seq<int>, t: nat, r: nat): nat
    decreases t
  {
    if t == 0 then Abs(At(e, r)) else Mass(e, t - 1, 2 * r) + Mass(e, t - 1, 2 * r + 1)
  }

  lemma {:induction false} PartBound(e: seq<int>, t: nat, q: nat, r: nat)
    ensures Abs(Part(e, t, q, r)) <= Mass(e, t, r)
    decreases t
  {
    hide IndexBit;
    if t > 0 {
      PartBound(e, t - 1, q, 2 * r);
      PartBound(e, t - 1, q, 2 * r + 1);
    }
  }

  function Combine(a: int, x: seq<int>, b: int, y: seq<int>): (r: seq<int>)
    requires |x| == |y|
    ensures |r| == |x|
  {
    seq(|x|, i requires 0 <= i < |x| => a * x[i] + b * y[i])
  }

  lemma {:induction false} PartLinear(a: int, x: seq<int>, b: int, y: seq<int>, t: nat, q: nat, r: nat)
    requires |x| == |y|
    ensures Part(Combine(a, x, b, y), t, q, r) == a * Part(x, t, q, r) + b * Part(y, t, q, r)
    decreases t
  {
    hide IndexBit;
    if t > 0 {
      hide Combine;
      PartLinear(a, x, b, y, t - 1, q, 2 * r);
      PartLinear(a, x, b, y, t - 1, q, 2 * r + 1);
      LinearStep(a, Part(x, t - 1, q, 2 * r), Part(x, t - 1, q, 2 * r + 1), b, Part(y, t - 1, q, 2 * r),
        Part(y, t - 1, q, 2 * r + 1));
    }
  }

  lemma LinearStep(a: int, x: int, x': int, b: int, y: int, y': int)
    ensures (a * x + b * y) + (a * x' + b * y') == a * (x + x') + b * (y + y')
    ensures (a * x + b * y) - (a * x' + b * y') == a * (x - x') + b * (y - y')
  {
  }

  function Sign(x: bool): int { if x then -1 else 1 }

  /** The signs of one frequency. */
  function Character(l: nat): (c: seq<int>)
    ensures |c| == 128 && forall b | 0 <= b < 128 :: c[b] == Sign(Shared(l, b))
  {
    seq(128, b requires 0 <= b < 128 => Sign(Shared(l, b)))
  }

  /** A character after t passes: a spike where the low bits agree. */
  function Spike(l: nat, t: nat, q: nat, r: nat): int {
    if !Agree(l, q, t) then 0 else if Shared(HighBits(l, t), r) then -(Pow2(t) as int) else Pow2(t)
  }

  lemma SpikeStep(l: nat, t: nat, q: nat, r: nat)
    requires 0 < t
    ensures Spike(l, t, q, r) == if IndexBit(q, t - 1) then Spike(l, t - 1, q, 2 * r) - Spike(l, t - 1, q, 2 * r + 1)
      else Spike(l, t - 1, q, 2 * r) + Spike(l, t - 1, q, 2 * r + 1)
  {
    hide Shared;
    SharedStep(HighBits(l, t - 1), r, 0);
    SharedStep(HighBits(l, t - 1), r, 1);
  }

  /** A character transforms to a single spike. */
  lemma {:induction false} CharacterPart(l: nat, t: nat, q: nat, r: nat, m: nat)
    requires m == Pow2(t) && (r + 1) * m <= 128
    ensures Part(Character(l), t, q, r) == Spike(l, t, q, r)
    decreases t
  {
    hide IndexBit, Shared;
    if t == 0 {
    } else {
      SpikeStep(l, t, q, r);
      hide Character, Spike;
      var h := Pow2(t - 1);
      assert (2 * r + 2) * h == (r + 1) * m;
      assert (2 * r + 1) * h <= (2 * r + 2) * h;
      CharacterPart(l, t - 1, q, 2 * r, h);
      CharacterPart(l, t - 1, q, 2 * r + 1, h);
    }
  }

  lemma {:induction false} AgreeSame(l: nat, q: nat, t: nat)
    requires HighBits(l, t) == HighBits(q, t)
    ensures Agree(l, q, t) <==> l == q
    decreases t
  {
    if t > 0 {
      if IndexBit(l, t - 1) == IndexBit(q, t - 1) {
        AgreeSame(l, q, t - 1);
      } else if l == q {
        assert false;
      }
    }
  }

  lemma {:induction false} HighBitsZero(l: nat, t: nat)
    requires l < Pow2(t)
    ensures HighBits(l, t) == 0
    decreases t
  {
    if t > 0 {
      HighBitsInner(l, t);
      HighBitsZero(l / 2, t - 1);
    }
  }

  /** Halving first or last. */
  lemma {:induction false} HighBitsInner(l: nat, t: nat)
    requires 0 < t
    ensures HighBits(l, t) == HighBits(l / 2, t - 1)
    decreases t
  {
    if t > 1 { HighBitsInner(l, t - 1); }
  }

  lemma AgreeAll(l: nat, q: nat)
    requires l < 128 && q < 128
    ensures Agree(l, q, 7) <==> l == q
    ensures HighBits(l, 7) == 0
  {
    assert Pow2(7) == 128;
    hide Agree, HighBits;
    HighBitsZero(l, 7);
    HighBitsZero(q, 7);
    AgreeSame(l, q, 7);
  }

  /** The whole transform of a character: 128 at its own frequency, 0 elsewhere. */
  lemma CharacterTransform(l: nat, q: nat)
    requires l < 128 && q < 128
    ensures Part(Character(l), 7, q, 0) == if l == q then 128 else 0
  {
    assert Pow2(7) == 128;
    AgreeAll(l, q);
    assert !Shared(0, 0);
    hide Part, Character, Agree, HighBits, Pow2;
    CharacterPart(l, 7, q, 0, 128);
  }

  // ------------------------------------------------------------ one pass

  /** The k low bits. */
  function Low(j: nat, k: nat): nat
    decreases k
  {
    if k == 0 then 0 else 2 * Low(j / 2, k - 1) + j % 2
  }

  /** Adding above the m low bits. */
  lemma {:induction false} HighShift(x: nat, m: nat, c: nat, p: nat)
    requires p == Pow2(m) * c
    ensures HighBits(x + p, m) == HighBits(x, m) + c && Low(x + p, m) == Low(x, m)
    decreases m
  {
    if m > 0 {
      var h := Pow2(m - 1) * c;
      assert p == 2 * h;
      HighBitsInner(x + p, m);
      HighBitsInner(x, m);
      assert (x + p) / 2 == x / 2 + h && (x + p) % 2 == x % 2;
      HighShift(x / 2, m - 1, c, h);
    }
  }

  /** Part reads only the t low bits of the frequency. */
  lemma {:induction false} AgreePart(e: seq<int>, t: nat, q: nat, q': nat, r: nat)
    requires Agree(q, q', t)
    ensures Part(e, t, q, r) == Part(e, t, q', r)
    decreases t
  {
    hide IndexBit;
    if t > 0 {
      AgreePart(e, t - 1, q, q', 2 * r);
      AgreePart(e, t - 1, q, q', 2 * r + 1);
    }
  }

  lemma {:induction false} TopAgree(h: nat, t: nat, k: nat)
    requires k <= t
    ensures Agree(h + Pow2(t), h, k)
    decreases k
  {
    if k > 0 {
      TopAgree(h, t, k - 1);
      Pow2Add(k - 1, t - k + 1);
      Pow2Double(t - k + 1);
      HighShift(h, k - 1, 2 * Pow2(t - k), Pow2(t));
    }
  }

  /** The value at place j after t passes. */
  function Expected(e: seq<int>, t: nat, j: nat): int
    requires t <= 7
  {
    Part(e, t, HighBits(j, 7 - t), Low(j, 7 - t))
  }

  /** Where a place's neighbours come from: the two places it reads one pass earlier. */
  lemma Neighbours(x: nat, m: nat)
    ensures HighBits(2 * x, m + 1) == HighBits(2 * x + 1, m + 1) == HighBits(x, m)
    ensures Low(2 * x, m + 1) == 2 * Low(x, m) && Low(2 * x + 1, m + 1) == 2 * Low(x, m) + 1
  {
    hide HighBits;
    HighBitsInner(2 * x, m + 1);
    HighBitsInner(2 * x + 1, m + 1);
    assert (2 * x + 1) / 2 == x && (2 * x) / 2 == x;
  }

  lemma PartNext(e: seq<int>, t: nat, q: nat, r: nat)
    ensures Part(e, t + 1, q, r) == if IndexBit(q, t) then Part(e, t, q, 2 * r) - Part(e, t, q, 2 * r + 1)
      else Part(e, t, q, 2 * r) + Part(e, t, q, 2 * r + 1)
  {
    hide IndexBit;
  }

  /** One butterfly: sum below, difference in the upper half. */
  lemma Butterfly(e: seq<int>, t: nat, x: nat)
    requires t < 7 && x < 64
    ensures Expected(e, t + 1, x) == Expected(e, t, 2 * x) + Expected(e, t, 2 * x + 1)
    ensures Expected(e, t + 1, x + 64) == Expected(e, t, 2 * x) - Expected(e, t, 2 * x + 1)
  {
    hide HighBits, Low, Agree, Pow2, Part, IndexBit;
    var m := 6 - t;
    var h, r, top := HighBits(x, m), Low(x, m), Pow2(t);
    Neighbours(x, m);
    assert m + 1 == 7 - t && m == 7 - (t + 1);
    Pow2Sixty(t);
    HighShift(x, m, top, 64);
    TopAgree(h, t, t);
    TopBits(x, m, t);
    AgreePart(e, t, h + top, h, 2 * r);
    AgreePart(e, t, h + top, h, 2 * r + 1);
    PartNext(e, t, h, r);
    PartNext(e, t, h + top, r);
  }

  lemma Pow2Sixty(t: nat)
    requires t < 7
    ensures Pow2(6 - t) * Pow2(t) == 64 == Pow2(6 - t + t)
  {
    Pow2Add(6 - t, t);
    assert Pow2(6) == 64;
  }

  lemma BitOfHigh(h: nat, t: nat, c: nat)
    requires HighBits(h, t) == c
    ensures IndexBit(h, t) == (c % 2 == 1)
  {
  }

  /** The top bit of a short number is clear; adding its weight sets it. */
  lemma TopBits(x: nat, m: nat, t: nat)
    requires x < Pow2(m + t)
    ensures !IndexBit(HighBits(x, m), t) && IndexBit(HighBits(x, m) + Pow2(t), t)
  {
    hide HighBits, Pow2, IndexBit;
    var h, p := HighBits(x, m), Pow2(t);
    Compose(x, m, t);
    HighBitsZero(x, m + t);
    HighShift(h, t, 1, p);
    BitOfHigh(h, t, 0);
    BitOfHigh(h + p, t, 1);
  }

  lemma {:induction false} Compose(x: nat, m: nat, t: nat)
    ensures HighBits(HighBits(x, m), t) == HighBits(x, m + t)
    decreases t
  {
    if t > 0 { Compose(x, m, t - 1); }
  }

  // ------------------------------------------------------------ bounds

  lemma {:induction false} MassBound(e: seq<int>, t: nat, r: nat, m: nat)
    requires forall b | 0 <= b < |e| :: Abs(e[b]) <= m
    ensures Mass(e, t, r) <= m * Pow2(t)
    decreases t
  {
    if t > 0 {
      MassBound(e, t - 1, 2 * r, m);
      MassBound(e, t - 1, 2 * r + 1, m);
      assert m * (2 * Pow2(t - 1)) == 2 * (m * Pow2(t - 1));
    }
  }

  /** No pass leaves 16 bits. */
  lemma ExpectedBound(e: seq<int>, t: nat, j: nat, m: nat)
    requires t <= 7 && forall b | 0 <= b < |e| :: Abs(e[b]) <= m
    ensures Abs(Expected(e, t, j)) <= 128 * m
  {
    assert Pow2(7) == 128;
    hide Pow2, Part, Mass, Low, HighBits;
    var r, u := Low(j, 7 - t), Pow2(t);
    PartBound(e, t, HighBits(j, 7 - t), r);
    MassBound(e, t, r, m);
    Pow2Mono(t, 7);
    MulMono(u, 128, m);
    assert m * u == u * m;
  }

  /** The absolute values of a stretch. */
  function RangeSum(e: seq<int>, from: nat, n: nat): nat {
    if n == 0 then 0 else RangeSum(e, from, n - 1) + Abs(At(e, from + n - 1))
  }

  lemma {:induction false} RangeSplit(e: seq<int>, from: nat, m: nat, n: nat)
    ensures RangeSum(e, from, m + n) == RangeSum(e, from, m) + RangeSum(e, from + m, n)
    decreases n
  {
    if n > 0 { RangeSplit(e, from, m, n - 1); }
  }

  lemma {:induction false} MassIsSum(e: seq<int>, t: nat, r: nat, m: nat, from: nat)
    requires m == Pow2(t) && from == r * m
    ensures Mass(e, t, r) == RangeSum(e, from, m)
    decreases t
  {
    if t == 0 {
      assert from == r;
      assert RangeSum(e, from, 1) == RangeSum(e, from, 0) + Abs(At(e, from));
    } else {
      var h := Pow2(t - 1);
      assert from == (2 * r) * h && from + h == (2 * r + 1) * h;
      MassIsSum(e, t - 1, 2 * r, h, from);
      MassIsSum(e, t - 1, 2 * r + 1, h, from + h);
      RangeSplit(e, from, h, h);
    }
  }

  // ------------------------------------------------------------ the code

  /** Bit b of the codeword of byte m: RM(1,7). */
  predicate CodeBit(m: nat, b: nat) { (m >= 128) != Shared(m % 128, b) }

  /** 1 when both numbers are odd. */
  function BothOdd(x: nat, y: nat): nat { if x % 2 == 1 && y % 2 == 1 then 1 else 0 }

  /** How many of the n low bits two numbers share. */
  function Common(l: nat, b: nat, n: nat): nat {
    if n == 0 then 0 else BothOdd(l, b) + Common(l / 2, b / 2, n - 1)
  }

  lemma {:induction false} SharedIsCommon(l: nat, b: nat, n: nat)
    requires b < Pow2(n)
    ensures Shared(l, b) <==> Common(l, b, n) % 2 == 1
    decreases n
  {
    if n > 0 {
      SharedIsCommon(l / 2, b / 2, n - 1);
      if b == 0 { assert !Shared(l / 2, 0); }
    }
  }

  lemma CommonSeven(l: nat, b: nat)
    ensures Common(l, b, 7) == BothOdd(l, b) + BothOdd(l / 2, b / 2) + BothOdd(l / 4, b / 4) + BothOdd(l / 8, b / 8)
                               + BothOdd(l / 16, b / 16) + BothOdd(l / 32, b / 32) + BothOdd(l / 64, b / 64)
  {
    hide BothOdd, Common;
    Quotients(l);
    Quotients(b);
    CommonStep(l, b, l / 2, b / 2, 7);
    CommonStep(l / 2, b / 2, l / 4, b / 4, 6);
    CommonStep(l / 4, b / 4, l / 8, b / 8, 5);
    CommonStep(l / 8, b / 8, l / 16, b / 16, 4);
    CommonStep(l / 16, b / 16, l / 32, b / 32, 3);
    CommonStep(l / 32, b / 32, l / 64, b / 64, 2);
    CommonStep(l / 64, b / 64, l / 64 / 2, b / 64 / 2, 1);
    CommonNone(l / 64 / 2, b / 64 / 2);
  }

  lemma Quotients(l: nat)
    ensures l / 2 / 2 == l / 4 && l / 4 / 2 == l / 8 && l / 8 / 2 == l / 16
    ensures l / 16 / 2 == l / 32 && l / 32 / 2 == l / 64
  {
  }

  lemma CommonStep(l: nat, b: nat, l2: nat, b2: nat, n: nat)
    requires 0 < n && l2 == l / 2 && b2 == b / 2
    ensures Common(l, b, n) == BothOdd(l, b) + Common(l2, b2, n - 1)
  {
  }

  lemma CommonNone(l: nat, b: nat)
    ensures Common(l, b, 0) == 0
  {
  }

  /** Bit b of a codeword: the byte's top bit and, for each of its other bits, that bit where b has it, added mod 2. */
  lemma CodeBitIs(m: nat, l: nat, b: nat)
    requires m < 256 && b < 128 && l == m % 128
    ensures CodeBit(m, b) == ((m / 128 + BothOdd(l, b) + BothOdd(l / 2, b / 2) + BothOdd(l / 4, b / 4)
                               + BothOdd(l / 8, b / 8) + BothOdd(l / 16, b / 16) + BothOdd(l / 32, b / 32)
                               + BothOdd(l / 64, b / 64)) % 2 == 1)
  {
    hide Shared, Common, BothOdd;
    assert Pow2(7) == 128;
    SharedIsCommon(l, b, 7);
    CommonSeven(l, b);
    FlipParity(m / 128, Common(l, b, 7));
  }

  lemma FlipParity(t: nat, c: nat)
    requires t < 2
    ensures (t + c) % 2 == 1 <==> (t == 1) != (c % 2 == 1)
  {
  }

  /** A clean block's counts, in characters. */
  lemma CleanCount(m: nat, mult: nat, b: nat)
    requires m < 256 && b < 128
    ensures 2 * (mult * B2I(CodeBit(m, b)))
      == mult * Character(0)[b] + (if m >= 128 then mult as int else -(mult as int)) * Character(m % 128)[b]
  {
    NoShare(b);
    assert Character(0)[b] == 1;
    if CodeBit(m, b) { } else { }
  }

  lemma {:induction false} NoShare(b: nat)
    ensures !Shared(0, b)
    decreases b
  {
    if b > 0 { NoShare(b / 2); }
  }

  /** The counts of a block whose codeword was m, off by d. */
  ghost predicate Disturbed(e: seq<int>, m: nat, mult: nat, d: seq<int>) {
    |e| == |d| == 128 && m < 256 && forall b | 0 <= b < 128 :: e[b] == mult * B2I(CodeBit(m, b)) + d[b]
  }

  lemma DisturbedSum(e: seq<int>, m: nat, mult: nat, d: seq<int>)
    requires Disturbed(e, m, mult, d)
    ensures var s := if m >= 128 then mult as int else -(mult as int);
      Combine(2, e, 0, e) == Combine(1, Combine(mult, Character(0), s, Character(m % 128)), 2, d)
  {
    hide Character, CodeBit;
    var s := if m >= 128 then mult as int else -(mult as int);
    forall b | 0 <= b < 128
      ensures Combine(2, e, 0, e)[b] == Combine(1, Combine(mult, Character(0), s, Character(m % 128)), 2, d)[b]
    {
      CleanCount(m, mult, b);
    }
  }

  /** The transform of a block: the peak, and the disturbance. */
  lemma TransformOf(e: seq<int>, m: nat, mult: nat, d: seq<int>, q: nat)
    requires Disturbed(e, m, mult, d) && q < 128
    ensures Part(e, 7, q, 0) - (if q == 0 then 64 * mult else 0)
      == (if q == m % 128 then (if m >= 128 then 64 * mult else -(64 * mult)) else 0) + Part(d, 7, q, 0)
  {
    hide Part, Combine, Character, Disturbed;
    DisturbedShape(e, m, mult, d);
    var t: nat :| t == 7;
    var s := if m >= 128 then mult as int else -(mult as int);
    var l := m % 128;
    DisturbedSum(e, m, mult, d);
    var a, b := Character(0), Character(l);
    var c := Combine(mult, a, s, b);
    PartLinear(2, e, 0, e, t, q, 0);
    PartLinear(1, c, 2, d, t, q, 0);
    PartLinear(mult, a, s, b, t, q, 0);
    CharacterTransform(0, q);
    CharacterTransform(l, q);
    PeakArithmetic(Part(e, t, q, 0), Part(d, t, q, 0), mult, s, q == 0, q == l);
  }

  lemma PeakArithmetic(e: int, d: int, mult: nat, s: int, zero: bool, hit: bool)
    requires 2 * e == mult * (if zero then 128 else 0) + s * (if hit then 128 else 0) + 2 * d
    ensures e - (if zero then 64 * mult else 0) == (if hit then 64 * s else 0) + d
  {
  }

  lemma DisturbanceSmall(d: seq<int>, q: nat)
    requires |d| == 128
    ensures Abs(Part(d, 7, q, 0)) <= RangeSum(d, 0, 128)
  {
    PartBound(d, 7, q, 0);
    assert Pow2(7) == 128;
    hide Part, Mass, RangeSum, Pow2;
    MassIsSum(d, 7, 0, 128, 0);
  }

  /** Under fewer than 32 mult flips the peak stands alone at the message's low bits, and its sign
      is the message's high bit. */
  lemma PeakIsMessage(e: seq<int>, m: nat, mult: nat, d: seq<int>, p: seq<int>)
    requires Disturbed(e, m, mult, d) && RangeSum(d, 0, 128) < 32 * mult && |p| == 128
    requires forall q | 0 <= q < 128 :: p[q] == Part(e, 7, q, 0) - (if q == 0 then 64 * mult else 0)
    ensures Abs(p[m % 128]) > 32 * mult && (p[m % 128] > 0 <==> m >= 128)
    ensures forall q | 0 <= q < 128 && q != m % 128 :: Abs(p[q]) < 32 * mult
  {
    hide Part, RangeSum, Disturbed;
    DisturbedShape(e, m, mult, d);
    forall q | 0 <= q < 128
      ensures Abs(p[q] - (if q == m % 128 then (if m >= 128 then 64 * mult else -(64 * mult)) else 0)) < 32 * mult
    {
      TransformOf(e, m, mult, d, q);
      DisturbanceSmall(d, q);
    }
  }

  lemma DisturbedShape(e: seq<int>, m: nat, mult: nat, d: seq<int>)
    requires Disturbed(e, m, mult, d)
    ensures |e| == |d| == 128 && m < 256
  {
  }
}
