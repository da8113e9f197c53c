/** The 64 x 64 carry-less product out of integer multiplications: operands with three-bit holes,
    whose partial products meet fewer than sixteen times at any bit that could carry. */
module CarrylessWord {
  import opened ModArith
  import opened Bits
  import opened Radix
  import opened BinaryPoly

  // ------------------------------------------------------------ integers and polynomials

  /** The number with bits f(0), ..., f(n - 1). */
  function Num(f: Poly, n: nat): nat {
    if n == 0 then 0 else Num(f, n - 1) + B2I(f(n - 1)) * Pow2(n - 1)
  }

  /** How many of the first n terms of the convolution at p are set. */
  function Meet(f: Poly, g: Poly, p: nat, n: nat): (c: nat)
    decreases n
  {
    if n == 0 then 0 else Meet(f, g, p, n - 1) + B2I(n - 1 <= p && f(n - 1) && g(p - (n - 1)))
  }

  /** The first P digits, each weighted by its power of two. */
  function Weighted(f: Poly, g: Poly, n: nat, P: nat): nat {
    if P == 0 then 0 else Weighted(f, g, n, P - 1) + Meet(f, g, P - 1, n) * Pow2(P - 1)
  }

  lemma NoNumber(g: Poly)
    ensures Num(g, 0) == 0
  {
  }

  lemma MeetNext(f: Poly, g: Poly, k: nat, p: nat)
    ensures Meet(f, g, p, k + 1) == Meet(f, g, p, k) + B2I(k <= p && f(k) && g(p - k))
  {
  }

  lemma NumNext(g: Poly, n: nat)
    ensures Num(g, n + 1) == Num(g, n) + B2I(g(n)) * Pow2(n)
  {
  }

  /** The digits one more term adds: g, k places up. */
  lemma {:induction false} WeightedStep(f: Poly, g: Poly, k: nat, P: nat)
    ensures Weighted(f, g, k + 1, P) == Weighted(f, g, k, P) + (if f(k) && P >= k then Pow2(k) * Num(g, P - k) else 0)
    decreases P
  {
    hide Meet, Num, Pow2;
    NoNumber(g);
    if P > 0 {
      var p := P - 1;
      WeightedStep(f, g, k, p);
      MeetNext(f, g, k, p);
      if f(k) && p >= k {
        Pow2Add(k, p - k);
        NumNext(g, p - k);
        StepTerm(Meet(f, g, p, k), B2I(g(p - k)), Pow2(p), Pow2(k), Num(g, p - k), Pow2(p - k));
      }
    }
  }

  lemma StepTerm(c: int, b: int, pp: int, pk: int, num: int, pd: int)
    requires pp == pk * pd
    ensures (c + b) * pp == c * pp + pk * (b * pd) && pk * (num + b * pd) == pk * num + pk * (b * pd)
  {
    assert b * pp == pk * (b * pd);
  }

  lemma {:induction false} NumWhole(g: Poly, n: nat, m: nat)
    requires n <= m && forall i: nat | i >= n :: !g(i)
    ensures Num(g, m) == Num(g, n)
    decreases m
  {
    if n < m { NumWhole(g, n, m - 1); }
  }

  /** The product of two numbers, digit by digit before any carry. */
  lemma {:induction false} ProductDigits(f: Poly, g: Poly, n: nat, m: nat, P: nat)
    requires n + m <= P && forall i: nat | i >= m :: !g(i)
    ensures Num(f, n) * Num(g, m) == Weighted(f, g, n, P)
    decreases n
  {
    if n == 0 {
      NoDigits(f, g, P);
    } else {
      var k := n - 1;
      ProductDigits(f, g, k, m, P);
      WeightedStep(f, g, k, P);
      NumWhole(g, m, P - k);
      OneMoreTerm(Num(f, k), f(k), Pow2(k), Num(g, m));
    }
  }

  lemma OneMoreTerm(x: int, b: bool, p: int, y: int)
    ensures (x + B2I(b) * p) * y == x * y + (if b then p * y else 0)
  {
  }

  lemma {:induction false} NoDigits(f: Poly, g: Poly, P: nat)
    ensures Weighted(f, g, 0, P) == 0
  {
    if P > 0 { NoDigits(f, g, P - 1); }
  }

  // ------------------------------------------------------------ holes

  /** Every fourth coefficient, from k. */
  function Class(f: Poly, k: nat): Poly { (i: nat) => i % 4 == k && f(i) }

  /** No meeting off the class of the sum. */
  lemma {:induction false} MeetOff(f: Poly, g: Poly, k: nat, l: nat, p: nat, n: nat)
    requires p % 4 != (k + l) % 4
    ensures Meet(Class(f, k), Class(g, l), p, n) == 0
    decreases n
  {
    if n > 0 {
      MeetOff(f, g, k, l, p, n - 1);
      if n - 1 <= p { OffClass(n - 1, p - (n - 1), k, l); }
    }
  }

  lemma OffClass(i: nat, j: nat, k: nat, l: nat)
    requires (i + j) % 4 != (k + l) % 4
    ensures i % 4 != k || j % 4 != l
  {
  }

  /** A term for every fourth index. */
  lemma {:induction false} MeetBound(f: Poly, g: Poly, k: nat, p: nat, n: nat)
    requires k < 4
    ensures n <= k ==> Meet(Class(f, k), g, p, n) == 0
    ensures 4 * Meet(Class(f, k), g, p, n) <= (if n <= p then n else p + 1) + 3 - k
    decreases n
  {
    if n > 0 { MeetBound(f, g, k, p, n - 1); }
  }

  /** Below a bit of the product's class the digits never carry into it. */
  lemma {:induction false} NoCarry(f: Poly, g: Poly, k: nat, l: nat, n: nat, p: nat)
    requires k < 4 && l < 4 && p < 64 && p % 4 == (k + l) % 4
    ensures Weighted(Class(f, k), Class(g, l), n, p) < Pow2(p)
    decreases p
  {
    var fk, gl := Class(f, k), Class(g, l);
    if p < 4 {
      NothingBelow(f, g, k, l, n, p);
    } else {
      var q := p - 4;
      NoCarry(f, g, k, l, n, q);
      MeetOff(f, g, k, l, q + 1, n);
      MeetOff(f, g, k, l, q + 2, n);
      MeetOff(f, g, k, l, q + 3, n);
      MeetBound(f, gl, k, q, n);
      FourDigits(fk, gl, n, q);
      hide Weighted, Meet, Class;
      CarryArithmetic(Weighted(fk, gl, n, q), Meet(fk, gl, q, n), Pow2(q));
      FourPowers(q);
    }
  }

  lemma FourPowers(q: nat)
    ensures Pow2(q + 4) == 16 * Pow2(q)
  {
    Pow2Add(4, q);
    assert Pow2(4) == 16;
  }

  lemma FourDigits(f: Poly, g: Poly, n: nat, q: nat)
    requires Meet(f, g, q + 1, n) == 0 && Meet(f, g, q + 2, n) == 0 && Meet(f, g, q + 3, n) == 0
    ensures Weighted(f, g, n, q + 4) == Weighted(f, g, n, q) + Meet(f, g, q, n) * Pow2(q)
  {
    hide Meet, Pow2;
    DigitStep(f, g, n, q);
    DigitStep(f, g, n, q + 1);
    DigitStep(f, g, n, q + 2);
    DigitStep(f, g, n, q + 3);
  }

  lemma DigitStep(f: Poly, g: Poly, n: nat, q: nat)
    ensures Weighted(f, g, n, q + 1) == Weighted(f, g, n, q) + Meet(f, g, q, n) * Pow2(q)
  {
  }

  lemma CarryArithmetic(w: nat, c: nat, p: nat)
    requires w < p && c <= 15
    ensures w + c * p < 16 * p
  {
    MulMono(c, 15, p);
  }

  lemma {:induction false} NothingBelow(f: Poly, g: Poly, k: nat, l: nat, n: nat, p: nat)
    requires p < 4 && p % 4 == (k + l) % 4 && k < 4 && l < 4
    ensures Weighted(Class(f, k), Class(g, l), n, p) == 0 < Pow2(p)
  {
    hide Meet, Class;
    for q := 0 to p
      invariant Weighted(Class(f, k), Class(g, l), n, q) == 0
    {
      MeetOff(f, g, k, l, q, n);
      DigitStep(Class(f, k), Class(g, l), n, q);
    }
  }

  /** The digits from p on, as a multiple of 2^p: the digit at p and an even rest. */
  lemma {:induction false} DigitsAbove(f: Poly, g: Poly, n: nat, p: nat, P: nat) returns (h: nat)
    requires p < P
    ensures Weighted(f, g, n, P) == Weighted(f, g, n, p) + Pow2(p) * (Meet(f, g, p, n) + 2 * h)
    decreases P
  {
    hide Meet;
    if P == p + 1 {
      h := 0;
    } else {
      h := DigitsAbove(f, g, n, p, P - 1);
      var c, e := Meet(f, g, P - 1, n), Pow2(P - 2 - p);
      Pow2Add(p, P - 1 - p);
      Pow2Double(P - 1 - p);
      assert 0 <= c * e;
      AboveArithmetic(Pow2(p), Meet(f, g, p, n), h, c, e);
      h := h + c * e;
    }
  }

  lemma AboveArithmetic(p: int, d: int, h: int, c: int, e: int)
    ensures p * (d + 2 * h) + c * (p * (2 * e)) == p * (d + 2 * (h + c * e))
  {
    assert c * (p * (2 * e)) == p * (2 * (c * e));
  }

  lemma {:induction false} MeetParity(f: Poly, g: Poly, p: nat, n: nat)
    requires n <= p + 1
    ensures Conv(f, g, p, n) == (Meet(f, g, p, n) % 2 == 1)
    decreases n
  {
    if n > 0 { MeetParity(f, g, p, n - 1); }
  }

  lemma {:induction false} MeetMore(f: Poly, g: Poly, p: nat, n: nat)
    requires p + 1 <= n
    ensures Meet(f, g, p, n) == Meet(f, g, p, p + 1)
    decreases n
  {
    if n > p + 1 { MeetMore(f, g, p, n - 1); }
  }

  lemma BitOfSum(w: nat, c: nat, h: nat, p: nat)
    requires w < Pow2(p)
    ensures BitOf(w + Pow2(p) * (c + 2 * h), p) == (c % 2 == 1)
  {
    hide Pow2;
    DivModUnique(w + Pow2(p) * (c + 2 * h), Pow2(p), c + 2 * h, w);
  }

  /** Where nothing carries in, a bit of the integer product is the carry-less one. */
  lemma BitWithoutCarry(f: Poly, g: Poly, n: nat, p: nat)
    requires p < n && Weighted(f, g, n, p) < Pow2(p) && forall i: nat | i >= n :: !g(i)
    ensures BitOf(Num(f, n) * Num(g, n), p) == Mul(f, g, p)
  {
    hide Num, Weighted, Meet, BitOf;
    ProductDigits(f, g, n, n, 2 * n);
    var h := DigitsAbove(f, g, n, p, 2 * n);
    BitOfSum(Weighted(f, g, n, p), Meet(f, g, p, n), h, p);
    MeetMore(f, g, p, n);
    MeetParity(f, g, p, p + 1);
  }

  /** A bit of the integer product of two classes is the carry-less one. */
  lemma HoleBit(f: Poly, g: Poly, k: nat, l: nat, p: nat, n: nat)
    requires k < 4 && l < 4 && p < n <= 64 && p % 4 == (k + l) % 4
    requires forall i: nat | i >= n :: !g(i)
    ensures BitOf(Num(Class(f, k), n) * Num(Class(g, l), n), p) == Mul(Class(f, k), Class(g, l), p)
  {
    var gl := Class(g, l);
    forall i: nat | i >= n ensures !gl(i) { }
    hide Num, Weighted, Meet, Class, BitOf, Mul;
    NoCarry(f, g, k, l, n, p);
    BitWithoutCarry(Class(f, k), gl, n, p);
  }

  /** The four classes of f against the matching classes of g make up the product. */
  lemma {:induction false} ClassesConv(f: Poly, g: Poly, p: nat, n: nat)
    requires n <= p + 1
    ensures Conv(f, g, p, n) == (((ClassConv(f, g, p, n, 0) != ClassConv(f, g, p, n, 1)) !=
      ClassConv(f, g, p, n, 2)) != ClassConv(f, g, p, n, 3))
    decreases n
  {
    if n > 0 {
      ClassesConv(f, g, p, n - 1);
      var i := n - 1;
      hide Conv;
      ClassStep(f, g, p, i, 0);
      ClassStep(f, g, p, i, 1);
      ClassStep(f, g, p, i, 2);
      ClassStep(f, g, p, i, 3);
      ConvStep(f, g, p, i);
    }
  }

  lemma ConvStep(f: Poly, g: Poly, p: nat, i: nat)
    requires i <= p
    ensures Conv(f, g, p, i + 1) == (Conv(f, g, p, i) != (f(i) && g(p - i)))
  {
  }

  lemma ClassStep(f: Poly, g: Poly, p: nat, i: nat, k: nat)
    requires i <= p && k < 4
    ensures ClassConv(f, g, p, i + 1, k) == (ClassConv(f, g, p, i, k) != (i % 4 == k && f(i) && g(p - i)))
  {
    var l := (p + 4 - k) % 4;
    ConvStep(Class(f, k), Class(g, l), p, i);
    hide Conv;
    if i % 4 == k { SameClass(p, i, k); }
  }

  lemma SameClass(p: nat, i: nat, k: nat)
    requires i <= p && k < 4 && i % 4 == k
    ensures (p - i) % 4 == (p + 4 - k) % 4
  {
    var q := i / 4;
    assert i == 4 * q + k;
    DivModUnique(p - i, 4, (p + 4 - k) / 4 - q - 1, (p + 4 - k) % 4);
  }

  predicate ClassConv(f: Poly, g: Poly, p: nat, n: nat, k: nat)
    requires n <= p + 1 && k < 4
  {
    Conv(Class(f, k), Class(g, (p + 4 - k) % 4), p, n)
  }

  // ------------------------------------------------------------ the word operations

  /** The word keeps every fourth bit from k: w & (0x1111... << k). */
  function Hole(w: BitSeq, k: nat): (h: BitSeq)
    ensures |h| == |w| && forall i | 0 <= i < |w| :: h[i] == (i % 4 == k && w[i])
  {
    And(w, seq(|w|, i requires 0 <= i < |w| => i % 4 == k))
  }

  /** x * y, truncated to the word. */
  function Times(x: BitSeq, y: BitSeq): (z: BitSeq)
    requires |x| == |y|
    ensures |z| == |x|
  {
    OfNat(ToNat(x) * ToNat(y), |x|)
  }

  function BitPoly(w: BitSeq): Poly { (i: nat) => i < |w| && w[i] }

  lemma {:induction false} ToNatAppend(c: BitSeq, b: bool)
    ensures ToNat(c + [b]) == ToNat(c) + B2I(b) * Pow2(|c|)
    decreases |c|
  {
    if c == [] {
      assert [b][1..] == [];
      assert c + [b] == [b];
    } else {
      ToNatAppend(c[1..], b);
      assert (c + [b])[1..] == c[1..] + [b] && (c + [b])[0] == c[0];
      assert Pow2(|c|) == 2 * Pow2(|c| - 1);
    }
  }

  lemma {:induction false} NumIsToNat(w: BitSeq, f: Poly, n: nat)
    requires n <= |w| && forall i: nat | i < n :: f(i) == w[i]
    ensures Num(f, n) == ToNat(w[..n])
    decreases n
  {
    if n > 0 {
      NumIsToNat(w, f, n - 1);
      assert w[..n] == w[..n - 1] + [w[n - 1]];
      ToNatAppend(w[..n - 1], w[n - 1]);
    }
  }

  lemma HoleNum(x: BitSeq, k: nat)
    ensures Num(Class(BitPoly(x), k), |x|) == ToNat(Hole(x, k))
  {
    var h := Hole(x, k);
    hide ToNat, Num;
    NumIsToNat(h, Class(BitPoly(x), k), |x|);
    assert h[..|x|] == h;
  }

  lemma TimesBit(x: BitSeq, y: BitSeq, p: nat)
    requires |x| == |y| && p < |x|
    ensures 0 <= ToNat(x) * ToNat(y) && Times(x, y)[p] == BitOf(ToNat(x) * ToNat(y), p)
  {
    hide ToNat, OfNat;
    OfNatBit(ToNat(x) * ToNat(y), |x|, p);
  }

  /** One partial product, at a bit of its class. */
  lemma HoleProduct(x: BitSeq, y: BitSeq, k: nat, l: nat, p: nat)
    requires |x| == |y| <= 64 && k < 4 && l < 4 && p < |x| && p % 4 == (k + l) % 4
    ensures Times(Hole(x, k), Hole(y, l))[p] == Mul(Class(BitPoly(x), k), Class(BitPoly(y), l), p)
  {
    var g := BitPoly(y);
    forall i: nat | i >= |x| ensures !g(i) { }
    hide Num, Class, Mul, ToNat, BitOf, Hole, Times, BitPoly;
    HoleNum(x, k);
    HoleNum(y, l);
    HoleBit(BitPoly(x), g, k, l, p, |x|);
    TimesBit(Hole(x, k), Hole(y, l), p);
  }

  /** One class of the result: four partial products. */
  function ClassProduct(x: BitSeq, y: BitSeq, r: nat): (z: BitSeq)
    requires |x| == |y| && r < 4
    ensures |z| == |x|
  {
    Xor(Xor(Xor(Times(Hole(x, 0), Hole(y, r)), Times(Hole(x, 1), Hole(y, (r + 3) % 4))),
      Times(Hole(x, 2), Hole(y, (r + 2) % 4))), Times(Hole(x, 3), Hole(y, (r + 1) % 4)))
  }

  lemma ClassProductBit(x: BitSeq, y: BitSeq, r: nat, p: nat)
    requires |x| == |y| <= 64 && r < 4 && p < |x| && p % 4 == r
    ensures ClassProduct(x, y, r)[p] == Mul(BitPoly(x), BitPoly(y), p)
  {
    var f, g := BitPoly(x), BitPoly(y);
    hide Hole, Times, Class, BitPoly;
    HoleProduct(x, y, 0, r, p);
    HoleProduct(x, y, 1, (r + 3) % 4, p);
    HoleProduct(x, y, 2, (r + 2) % 4, p);
    HoleProduct(x, y, 3, (r + 1) % 4, p);
    hide Conv;
    ClassesConv(f, g, p, p + 1);
  }

  /** The low word of the carry-less product. */
  function BMul(x: BitSeq, y: BitSeq): (z: BitSeq)
    requires |x| == |y|
    ensures |z| == |x|
  {
    Or(Or(Or(Hole(ClassProduct(x, y, 0), 0), Hole(ClassProduct(x, y, 1), 1)), Hole(ClassProduct(x, y, 2), 2)),
      Hole(ClassProduct(x, y, 3), 3))
  }

  /** Sixteen masked integer products give the carry-less product's low word exactly. */
  lemma BMulIs(x: BitSeq, y: BitSeq, p: nat)
    requires |x| == |y| <= 64 && p < |x|
    ensures BMul(x, y)[p] == Mul(BitPoly(x), BitPoly(y), p)
  {
    hide ClassProduct, Mul, BitPoly;
    ClassProductBit(x, y, p % 4, p);
  }

  // ------------------------------------------------------------ bit reversal and the high word

  /** The bits at even multiples of k: 0x5555..., 0x3333..., 0x0f0f..., and so on. */
  function EvenRuns(k: nat): (m: Lane64)
    requires 0 < k
  {
    seq(64, i requires 0 <= i < 64 => (i / k) % 2 == 0)
  }

  /** ((x & m) << k) | ((x >> k) & m): neighbouring runs of k bits exchanged. */
  function SwapRuns(x: Lane64, k: nat): (r: Lane64)
    requires 0 < k
  {
    Or(Shl(And(x, EvenRuns(k)), k), And(Shr(x, k), EvenRuns(k)))
  }

  function Rev64(x: Lane64): (r: Lane64) {
    var x1 := SwapRuns(x, 1);
    var x2 := SwapRuns(x1, 2);
    var x3 := SwapRuns(x2, 4);
    var x4 := SwapRuns(x3, 8);
    var x5 := SwapRuns(x4, 16);
    Or(Shl(x5, 32), Shr(x5, 32))
  }

  lemma SwapRaw(x: Lane64, k: nat, i: nat)
    requires 0 < k && i < 64
    ensures SwapRuns(x, k)[i]
      == ((i >= k && x[i - k] && ((i - k) / k) % 2 == 0) || (i + k < 64 && x[i + k] && (i / k) % 2 == 0))
  {
  }

  predicate RunSize(k: nat) { k in {1, 2, 4, 8, 16} }

  lemma RunIndex(i: nat, k: nat)
    requires RunSize(k) && i < 64
    ensures 0 < k
    ensures (i / k) % 2 == 1 ==> i >= k && ((i - k) / k) % 2 == 0
    ensures (i / k) % 2 == 0 ==> i + k < 64 && (i >= k ==> ((i - k) / k) % 2 == 1)
  {
    if k == 16 { } else if k == 8 { } else { SmallRunIndex(i, k); }
  }

  lemma SmallRunIndex(i: nat, k: nat)
    requires (k == 1 || k == 2 || k == 4) && i < 64
    ensures (i / k) % 2 == 1 ==> i >= k && ((i - k) / k) % 2 == 0
    ensures (i / k) % 2 == 0 ==> i + k < 64 && (i >= k ==> ((i - k) / k) % 2 == 1)
  {
    if k == 1 { } else if k == 2 { } else { }
  }

  /** Each bit comes from the neighbouring run. */
  lemma SwapRunsBit(x: Lane64, k: nat, i: nat)
    requires RunSize(k) && i < 64
    ensures 0 < k
    ensures (i / k) % 2 == 1 ==> i >= k && SwapRuns(x, k)[i] == x[i - k]
    ensures (i / k) % 2 == 0 ==> i + k < 64 && SwapRuns(x, k)[i] == x[i + k]
  {
    hide SwapRuns, RunSize;
    RunIndex(i, k);
    SwapRaw(x, k, i);
  }

  /** i moved to the neighbouring run of k. */
  function Moved(i: nat, k: nat): int
    requires 0 < k
  {
    if (i / k) % 2 == 1 then i - k else i + k
  }

  lemma MovedBit(x: Lane64, k: nat, i: nat)
    requires RunSize(k) && i < 64
    ensures 0 < k && 0 <= Moved(i, k) < 64 && SwapRuns(x, k)[i] == x[Moved(i, k)]
  {
    hide SwapRuns, RunSize;
    SwapRunsBit(x, k, i);
  }

  lemma MovedIs(i: nat, k: nat, h: nat, d: nat, r: nat)
    requires 0 < k && r < k && d < 2 && i == (2 * h + d) * k + r
    ensures Moved(i, k) == (2 * h + (1 - d)) * k + r
  {
    DivModUnique(i, k, 2 * h + d, r);
  }

  lemma FiveBits(i: nat) returns (a0: nat, a1: nat, a2: nat, a3: nat, a4: nat)
    requires i < 32
    ensures a0 < 2 && a1 < 2 && a2 < 2 && a3 < 2 && a4 < 2 && i == 16 * a4 + 8 * a3 + 4 * a2 + 2 * a1 + a0
  {
    var q1 := i / 2;
    var q2 := q1 / 2;
    var q3 := q2 / 2;
    a4 := q3 / 2;
    a0, a1, a2, a3 := i - 2 * q1, q1 - 2 * q2, q2 - 2 * q3, q3 - 2 * a4;
  }

  /** Five moves turn i around within its half of 32. */
  lemma FiveMoves(i: nat, c: nat)
    requires i < 32 && c < 2
    ensures var i1 := Moved(32 * c + i, 16);
      0 <= i1 < 64 && var i2 := Moved(i1, 8);
      0 <= i2 < 64 && var i3 := Moved(i2, 4);
      0 <= i3 < 64 && var i4 := Moved(i3, 2);
      0 <= i4 < 64 && Moved(i4, 1) == 32 * c + 31 - i
  {
    hide Moved;
    var a0, a1, a2, a3, a4 := FiveBits(i);
    var h1 := 2 * c + (1 - a4);
    var h2 := 2 * h1 + (1 - a3);
    var h3 := 2 * h2 + (1 - a2);
    var h4 := 2 * h3 + (1 - a1);
    MovedIs(32 * c + i, 16, c, a4, 8 * a3 + 4 * a2 + 2 * a1 + a0);
    MovedIs(16 * h1 + 8 * a3 + 4 * a2 + 2 * a1 + a0, 8, h1, a3, 4 * a2 + 2 * a1 + a0);
    MovedIs(8 * h2 + 4 * a2 + 2 * a1 + a0, 4, h2, a2, 2 * a1 + a0);
    MovedIs(4 * h3 + 2 * a1 + a0, 2, h3, a1, a0);
    MovedIs(2 * h4 + a0, 1, h4, a0, 0);
  }

  /** Five exchanges, runs of 1 to 16. */
  function Exchanged(x: Lane64): (r: Lane64) {
    SwapRuns(SwapRuns(SwapRuns(SwapRuns(SwapRuns(x, 1), 2), 4), 8), 16)
  }

  lemma ExchangedBit(x: Lane64, i: nat, c: nat)
    requires i < 32 && c < 2
    ensures Exchanged(x)[32 * c + i] == x[32 * c + 31 - i]
  {
    hide SwapRuns, Moved;
    var x1 := SwapRuns(x, 1);
    var x2 := SwapRuns(x1, 2);
    var x3 := SwapRuns(x2, 4);
    var x4 := SwapRuns(x3, 8);
    FiveMoves(i, c);
    var i1 := Moved(32 * c + i, 16); MovedBit(x4, 16, 32 * c + i);
    var i2 := Moved(i1, 8); MovedBit(x3, 8, i1);
    var i3 := Moved(i2, 4); MovedBit(x2, 4, i2);
    var i4 := Moved(i3, 2); MovedBit(x1, 2, i3);
    MovedBit(x, 1, i4);
  }

  /** Bit i of the reversal is bit 63 - i. */
  lemma Rev64Bit(x: Lane64, i: nat)
    requires i < 64
    ensures Rev64(x)[i] == x[63 - i]
  {
    var y := Exchanged(x);
    assert Rev64(x) == Or(Shl(y, 32), Shr(y, 32));
    hide Exchanged, Rev64;
    if i >= 32 { ExchangedBit(x, i - 32, 0); } else { ExchangedBit(x, i, 1); }
  }

  /** The reversed product read from its other end. */
  lemma {:induction false} ConvTurned(f: Poly, g: Poly, f': Poly, g': Poly, p: nat, n: nat)
    requires p <= 62 && n <= 63 - p
    requires forall i: nat | i < 64 :: f'(i) == f(63 - i) && g'(i) == g(63 - i)
    ensures Conv(f', g', 62 - p, n) == ConvTop(f, g, p + 64, n)
    decreases n
  {
    if n > 0 { ConvTurned(f, g, f', g', p, n - 1); }
  }

  /** The top n terms of the convolution at p, from index 63 down. */
  predicate ConvTop(f: Poly, g: Poly, p: nat, n: nat)
    requires 64 <= p && n <= 64
    decreases n
  {
    if n == 0 then false else ConvTop(f, g, p, n - 1) != (f(64 - n) && g(p - (64 - n)))
  }

  /** Summing the same terms from the other end. */
  lemma {:induction false} TopIsAll(f: Poly, g: Poly, p: nat, n: nat)
    requires 64 <= p && n <= 64
    ensures Conv(f, g, p, 64) == (Conv(f, g, p, 64 - n) != ConvTop(f, g, p, n))
    decreases n
  {
    if n > 0 {
      TopIsAll(f, g, p, n - 1);
      ConvStep(f, g, p, 64 - n);
    }
  }

  lemma {:induction false} ConvTail(f: Poly, g: Poly, p: nat, n: nat)
    requires 64 <= n <= p + 1 && forall i: nat | i >= 64 :: !f(i)
    ensures Conv(f, g, p, n) == Conv(f, g, p, 64)
    decreases n
  {
    if n > 64 { ConvTail(f, g, p, n - 1); }
  }

  lemma {:induction false} ConvHead(f: Poly, g: Poly, p: nat, n: nat)
    requires n <= p + 1 && (forall i: nat | i >= 64 :: !g(i)) && (n > 0 ==> p - (n - 1) >= 64)
    ensures !Conv(f, g, p, n)
    decreases n
  {
    if n > 0 { ConvHead(f, g, p, n - 1); }
  }

  /** Coefficient p + 64 of a 64 x 64 product, as the sum of its nonzero terms. */
  lemma HighTerms(f: Poly, g: Poly, p: nat)
    requires p <= 63 && (forall i: nat | i >= 64 :: !f(i)) && forall i: nat | i >= 64 :: !g(i)
    ensures Mul(f, g, p + 64) == ConvTop(f, g, p + 64, 63 - p)
  {
    hide Conv, ConvTop;
    ConvTail(f, g, p + 64, p + 65);
    TopIsAll(f, g, p + 64, 63 - p);
    ConvHead(f, g, p + 64, p + 1);
  }

  /** The 128-bit product of two words. */
  method ClmulPortable(a: Lane64, b: Lane64) returns (lo: Lane64, hi: Lane64)
    ensures forall p: nat | p < 64 :: lo[p] == Mul(Word64(a), Word64(b), p) &&
              hi[p] == Mul(Word64(a), Word64(b), p + 64)
  {
    hide BMul, Rev64, Mul;
    lo := BMul(a, b);
    hi := Shr(Rev64(BMul(Rev64(a), Rev64(b))), 1);
    forall p: nat | p < 64
      ensures lo[p] == Mul(Word64(a), Word64(b), p) && hi[p] == Mul(Word64(a), Word64(b), p + 64)
    {
      LowBit(a, b, p);
      HighBit(a, b, p);
    }
  }

  lemma LowBit(a: Lane64, b: Lane64, p: nat)
    requires p < 64
    ensures BMul(a, b)[p] == Mul(Word64(a), Word64(b), p)
  {
    hide BMul, Conv;
    BMulIs(a, b, p);
    MulSame(Word64(a), Word64(b), BitPoly(a), BitPoly(b), p);
  }

  lemma HighBit(a: Lane64, b: Lane64, p: nat)
    requires p < 64
    ensures Shr(Rev64(BMul(Rev64(a), Rev64(b))), 1)[p] == Mul(Word64(a), Word64(b), p + 64)
  {
    hide BMul, Rev64, Conv, ConvTop;
    var f, g := Word64(a), Word64(b);
    HighTerms(f, g, p);
    if p < 63 {
      var ra, rb := Rev64(a), Rev64(b);
      Rev64Bit(BMul(ra, rb), p + 1);
      LowBit(ra, rb, 62 - p);
      forall i: nat | i < 64 ensures Word64(ra)(i) == f(63 - i) && Word64(rb)(i) == g(63 - i) {
        Rev64Bit(a, i);
        Rev64Bit(b, i);
      }
      ConvTurned(f, g, Word64(ra), Word64(rb), p, 63 - p);
    } else {
      TopEmpty(f, g, p + 64);
    }
  }

  lemma TopEmpty(f: Poly, g: Poly, p: nat)
    requires 64 <= p
    ensures !ConvTop(f, g, p, 0)
  {
  }
}
