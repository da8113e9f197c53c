/** Karatsuba multiplication of GF(2) polynomials over words, in one buffer that holds results and
    scratch space, and the multiplication modulo x^N - 1 built on it. */
module Karatsuba {
  import opened ModArith
  import opened Bits
  import opened BinaryPoly
  import opened CarrylessWord

  /** r holds the product of a and b, bit for bit. */
  ghost predicate IsProduct(r: seq<Lane64>, a: seq<Lane64>, b: seq<Lane64>) {
    |a| == |b| && |r| == 2 * |a| && forall p: nat | p < 64 * |r| :: Words(r)(p) == Mul(Words(a), Words(b), p)
  }

  // ------------------------------------------------------------ the identity

  function Plus(f: Poly, g: Poly): Poly { (i: nat) => f(i) != g(i) }

  lemma SumProduct(a0: Poly, a1: Poly, b0: Poly, b1: Poly, p: nat)
    ensures Mul(Plus(a0, a1), Plus(b0, b1), p)
      == ((Mul(a0, b0, p) != Mul(a0, b1, p)) != (Mul(a1, b0, p) != Mul(a1, b1, p)))
  {
    hide Conv;
    MulAddLeft(a0, a1, Plus(a0, a1), Plus(b0, b1), p);
    MulAddRight(a0, b0, b1, Plus(b0, b1), p);
    MulAddRight(a1, b0, b1, Plus(b0, b1), p);
  }

  lemma SplitProduct(a: Poly, a0: Poly, a1: Poly, b: Poly, b0: Poly, b1: Poly, s: nat, p: nat)
    requires (forall i: nat :: a(i) == (a0(i) != Shift(a1, s)(i))) &&
      forall i: nat :: b(i) == (b0(i) != Shift(b1, s)(i))
    ensures Mul(a, b, p) == ((Mul(a0, b0, p) != (p >= s && (Mul(a0, b1, p - s) != Mul(a1, b0, p - s))))
      != (p >= 2 * s && Mul(a1, b1, p - 2 * s)))
  {
    hide Conv, Shift;
    MulAddLeft(a0, Shift(a1, s), a, b, p);
    MulAddRight(a0, b0, Shift(b1, s), b, p);
    MulShiftRight(a0, b1, s, p);
    MulShiftLeft(a1, b, s, p);
    if p >= s {
      MulAddRight(a1, b0, Shift(b1, s), b, p - s);
      MulShiftRight(a1, b1, s, p - s);
    }
  }

  /** Three half-size products give the whole. */
  lemma KaratsubaIdentity(a: Poly, a0: Poly, a1: Poly, b: Poly, b0: Poly, b1: Poly, s: nat, p: nat)
    requires (forall i: nat :: a(i) == (a0(i) != Shift(a1, s)(i))) &&
      forall i: nat :: b(i) == (b0(i) != Shift(b1, s)(i))
    ensures Mul(a, b, p) == ((Mul(a0, b0, p)
      != (p >= s && ((Mul(Plus(a0, a1), Plus(b0, b1), p - s) != Mul(a0, b0, p - s)) != Mul(a1, b1, p - s))))
      != (p >= 2 * s && Mul(a1, b1, p - 2 * s)))
  {
    hide Mul, Shift, Plus;
    SplitProduct(a, a0, a1, b, b0, b1, s, p);
    if p >= s { SumProduct(a0, a1, b0, b1, p - s); }
  }

  // ------------------------------------------------------------ schoolbook

  lemma OneMoreWord(a: seq<Lane64>, i: nat, q: nat)
    requires i < |a|
    ensures Words(a[..i + 1])(q) == (Words(a[..i])(q) != Shift(Word64(a[i]), 64 * i)(q))
  {
    if q >= 64 * i {
      assert q - 64 * i < 64 <==> q / 64 == i;
      if q / 64 == i { assert q % 64 == q - 64 * i; }
    }
  }

  lemma WordProductEnds(x: Lane64, y: Lane64, q: nat)
    requires q >= 128
    ensures !Mul(Word64(x), Word64(y), q)
  {
    ConvHigh(Word64(x), Word64(y), q, q + 1, 64, 64);
  }

  /** Adding a word product k words up. */
  lemma AddWordProduct(r: seq<Lane64>, r': seq<Lane64>, x: Lane64, y: Lane64, lo: Lane64, hi: Lane64, k: nat, p: nat)
    requires k + 1 < |r| && p < 64 * |r|
    requires forall q: nat | q < 64 :: lo[q] == Mul(Word64(x), Word64(y), q) &&
               hi[q] == Mul(Word64(x), Word64(y), q + 64)
    requires r' == r[k := Xor(r[k], lo)][k + 1 := Xor(r[k + 1], hi)]
    ensures Words(r')(p) == (Words(r)(p) != (p >= 64 * k && Mul(Word64(x), Word64(y), p - 64 * k)))
  {
    hide Mul;
    var w, b := p / 64, p % 64;
    if w == k {
      assert p - 64 * k == b;
    } else if w == k + 1 {
      assert p - 64 * k == b + 64;
    } else if w > k {
      WordProductEnds(x, y, p - 64 * k);
    }
  }

  predicate RowBit(a: seq<Lane64>, b: seq<Lane64>, i: nat, j: nat, p: nat)
    requires i < |a| && j <= |b|
  {
    Mul(Words(a[..i]), Words(b), p) != Mul(Shift(Word64(a[i]), 64 * i), Words(b[..j]), p)
  }

  /** Where a row of the schoolbook stands: rows below i whole, row i up to column j. */
  ghost predicate RowState(r: seq<Lane64>, a: seq<Lane64>, b: seq<Lane64>, i: nat, j: nat) {
    |a| == |b| && |r| == 2 * |a| && i < |a| && j <= |b|
    && forall p: nat | p < 64 * |r| :: Words(r)(p) == RowBit(a, b, i, j, p)
  }

  lemma RowStep(r: seq<Lane64>, r': seq<Lane64>, a: seq<Lane64>, b: seq<Lane64>, i: nat, j: nat, lo: Lane64, hi: Lane64)
    requires RowState(r, a, b, i, j) && j < |b|
    requires (forall q: nat | q < 64 ::
      lo[q] == Mul(Word64(a[i]), Word64(b[j]), q) && hi[q] == Mul(Word64(a[i]), Word64(b[j]), q + 64))
    requires r' == r[i + j := Xor(r[i + j], lo)][i + j + 1 := Xor(r[i + j + 1], hi)]
    ensures RowState(r', a, b, i, j + 1)
  {
    hide Mul, Words, Shift;
    var x := Shift(Word64(a[i]), 64 * i);
    forall p: nat | p < 64 * |r|
      ensures Words(r')(p) == (Mul(Words(a[..i]), Words(b), p) != Mul(x, Words(b[..j + 1]), p))
    {
      AddWordProduct(r, r', a[i], b[j], lo, hi, i + j, p);
      RowTerm(a[i], b, i, j, p);
    }
  }

  lemma RowTerm(x: Lane64, b: seq<Lane64>, i: nat, j: nat, p: nat)
    requires j < |b|
    ensures Mul(Shift(Word64(x), 64 * i), Words(b[..j + 1]), p) == (Mul(Shift(Word64(x), 64 * i), Words(b[..j]), p)
      != (p >= 64 * (i + j) && Mul(Word64(x), Word64(b[j]), p - 64 * (i + j))))
  {
    var f, y := Shift(Word64(x), 64 * i), Word64(b[j]);
    forall q: nat | q <= p
      ensures Words(b[..j + 1])(q) == (Words(b[..j])(q) != Shift(y, 64 * j)(q))
    {
      OneMoreWord(b, j, q);
    }
    hide Conv, Words, Shift;
    MulAddRight(f, Words(b[..j]), Shift(y, 64 * j), Words(b[..j + 1]), p);
    MulShiftLeft(Word64(x), Shift(y, 64 * j), 64 * i, p);
    if p >= 64 * i {
      MulShiftRight(Word64(x), y, 64 * j, p - 64 * i);
    }
  }

  /** Rows below i. */
  ghost predicate RowsDone(r: seq<Lane64>, a: seq<Lane64>, b: seq<Lane64>, i: nat) {
    |a| == |b| && |r| == 2 * |a| && i <= |a| &&
      forall p: nat | p < 64 * |r| :: Words(r)(p) == Mul(Words(a[..i]), Words(b), p)
  }

  lemma RowBegins(r: seq<Lane64>, a: seq<Lane64>, b: seq<Lane64>, i: nat)
    requires RowsDone(r, a, b, i) && i < |a|
    ensures RowState(r, a, b, i, 0)
  {
    hide Words, Shift;
    forall p: nat | p < 64 * |r|
      ensures !Mul(Shift(Word64(a[i]), 64 * i), Words(b[..0]), p)
    {
      EmptyRight(Shift(Word64(a[i]), 64 * i), b, p);
    }
  }

  lemma EmptyRight(f: Poly, b: seq<Lane64>, p: nat)
    ensures !Mul(f, Words(b[..0]), p)
  {
    EmptyConv(f, Words(b[..0]), p, p + 1);
  }

  lemma {:induction false} EmptyConv(f: Poly, g: Poly, p: nat, n: nat)
    requires n <= p + 1 && forall i: nat :: !g(i)
    ensures !Conv(f, g, p, n)
    decreases n
  {
    if n > 0 { EmptyConv(f, g, p, n - 1); }
  }

  lemma RowEnds(r: seq<Lane64>, a: seq<Lane64>, b: seq<Lane64>, i: nat)
    requires RowState(r, a, b, i, |b|)
    ensures RowsDone(r, a, b, i + 1)
  {
    assert b[..|b|] == b;
    hide Conv, Words, Shift;
    forall p: nat | p < 64 * |r| ensures Words(r)(p) == Mul(Words(a[..i + 1]), Words(b), p) {
      forall q: nat | q <= p
        ensures Words(a[..i + 1])(q) == (Words(a[..i])(q) != Shift(Word64(a[i]), 64 * i)(q))
      {
        OneMoreWord(a, i, q);
      }
      MulAddLeft(Words(a[..i]), Shift(Word64(a[i]), 64 * i), Words(a[..i + 1]), Words(b), p);
    }
  }

  lemma RowsStart(r: seq<Lane64>, a: seq<Lane64>, b: seq<Lane64>)
    requires |a| == |b| && |r| == 2 * |a| && forall k | 0 <= k < |r| :: r[k] == Zeros(64)
    ensures RowsDone(r, a, b, 0)
  {
    forall p: nat | p < 64 * |r| ensures Words(r)(p) == Mul(Words(a[..0]), Words(b), p) {
      ConvZeroLeft(Words(a[..0]), Words(b), p, p + 1);
    }
  }

  lemma RowsAreProduct(r: seq<Lane64>, a: seq<Lane64>, b: seq<Lane64>)
    requires RowsDone(r, a, b, |a|)
    ensures IsProduct(r, a, b)
  {
    assert a[..|a|] == a;
  }

  // ------------------------------------------------------------ the buffer

  /** Nothing but the stretch of n words at ro changed. */
  twostate predicate OnlyAt(mem: array<Lane64>, ro: nat, n: nat)
    reads mem
  {
    forall k | 0 <= k < mem.Length && !(ro <= k < ro + n) :: mem[k] == old(mem[k])
  }

  /** One column of the schoolbook. */
  method Column(mem: array<Lane64>, ro: nat, a: seq<Lane64>, b: seq<Lane64>, i: nat, j: nat)
    requires ro + 2 * |a| <= mem.Length && RowState(mem[ro..ro + 2 * |a|], a, b, i, j) && i < |a| && j < |b| == |a|
    modifies mem
    ensures RowState(mem[ro..ro + 2 * |a|], a, b, i, j + 1) && OnlyAt(mem, ro, 2 * |a|)
  {
    hide Mul, RowState, Words;
    ghost var r := mem[ro..ro + 2 * |a|];
    var lo, hi := ClmulPortable(a[i], b[j]);
    mem[ro + i + j] := Xor(mem[ro + i + j], lo);
    mem[ro + i + j + 1] := Xor(mem[ro + i + j + 1], hi);
    ghost var r' := mem[ro..ro + 2 * |a|];
    assert r' == r[i + j := Xor(r[i + j], lo)][i + j + 1 := Xor(r[i + j + 1], hi)];
    RowStep(r, r', a, b, i, j, lo, hi);
  }

  method Clear(mem: array<Lane64>, ro: nat, n: nat)
    requires ro + n <= mem.Length
    modifies mem
    ensures (forall k | ro <= k < ro + n :: mem[k] == Zeros(64)) && OnlyAt(mem, ro, n)
  {
    for i := 0 to n
      invariant forall k | ro <= k < ro + i :: mem[k] == Zeros(64)
      invariant OnlyAt(mem, ro, n)
    {
      mem[ro + i] := Zeros(64);
    }
  }

  /** The base case: a double loop of word products. */
  method School(mem: array<Lane64>, ro: nat, a: seq<Lane64>, b: seq<Lane64>)
    requires |a| == |b| && ro + 2 * |a| <= mem.Length
    modifies mem
    ensures IsProduct(mem[ro..ro + 2 * |a|], a, b) && OnlyAt(mem, ro, 2 * |a|)
  {
    hide RowState, RowsDone, IsProduct;
    var n := |a|;
    Clear(mem, ro, 2 * n);
    RowsStart(mem[ro..ro + 2 * n], a, b);
    for i := 0 to n
      invariant RowsDone(mem[ro..ro + 2 * n], a, b, i) && OnlyAt(mem, ro, 2 * n)
    {
      RowBegins(mem[ro..ro + 2 * n], a, b, i);
      for j := 0 to n
        invariant RowState(mem[ro..ro + 2 * n], a, b, i, j) && OnlyAt(mem, ro, 2 * n)
      {
        Column(mem, ro, a, b, i, j);
      }
      RowEnds(mem[ro..ro + 2 * n], a, b, i);
    }
    RowsAreProduct(mem[ro..ro + 2 * n], a, b);
  }

  // ------------------------------------------------------------ putting three products together

  /** z0 low, z2 high, zm + z0 + z2 in the middle: word k of the result. */
  function Mixed(z0: seq<Lane64>, z2: seq<Lane64>, zm: seq<Lane64>, m: nat, k: nat): Lane64
    requires |z0| == 2 * m && |z2| == |zm| && k < 2 * m + |z2|
  {
    var base := if k < 2 * m then z0[k] else z2[k - 2 * m];
    if m <= k < m + |z2| then Xor(base, Xor(Xor(zm[k - m], if k - m < 2 * m then z0[k - m] else Zeros(64)),
      z2[k - m])) else base
  }

  /** Bit j of word k, clear past the end. */
  predicate BitAt(a: seq<Lane64>, k: nat, j: nat)
    requires j < 64
  {
    k < |a| && a[k][j]
  }

  lemma MixedWordBit(z0: seq<Lane64>, z2: seq<Lane64>, zm: seq<Lane64>, m: nat, k: nat, j: nat)
    requires |z0| == 2 * m <= |z2| == |zm| && k < 2 * m + |z2| && j < 64
    ensures Mixed(z0, z2, zm, m, k)[j] == ((BitAt(z0, k, j)
      != (k >= m && ((BitAt(zm, k - m, j) != BitAt(z0, k - m, j)) != BitAt(z2, k - m, j))))
      != (k >= 2 * m && BitAt(z2, k - 2 * m, j)))
  {
  }

  lemma MixedBit(z0: seq<Lane64>, z2: seq<Lane64>, zm: seq<Lane64>, m: nat, k: nat, j: nat, p: nat)
    requires |z0| == 2 * m <= |z2| == |zm| && k < 2 * m + |z2| && j < 64 && p == 64 * k + j
    ensures Mixed(z0, z2, zm, m, k)[j] == ((Words(z0)(p)
        != (p >= 64 * m && ((Words(zm)(p - 64 * m) != Words(z0)(p - 64 * m)) != Words(z2)(p - 64 * m))))
        != (p >= 128 * m && Words(z2)(p - 128 * m)))
  {
    hide Mixed, Words, BitAt;
    MixedWordBit(z0, z2, zm, m, k, j);
    WordBit(z0, k, j, p);
    if k >= m {
      var q := p - 64 * m;
      WordBit(z0, k - m, j, q);
      WordBit(z2, k - m, j, q);
      WordBit(zm, k - m, j, q);
    }
    if k >= 2 * m { WordBit(z2, k - 2 * m, j, p - 128 * m); }
  }

  lemma WordBit(a: seq<Lane64>, k: nat, j: nat, p: nat)
    requires j < 64 && p == 64 * k + j
    ensures Words(a)(p) == BitAt(a, k, j)
  {
    assert p / 64 == k && p % 64 == j;
  }

  /** The sums of the halves, word by word; the low half may be one word shorter. */
  ghost predicate HalfSum(t: seq<Lane64>, a: seq<Lane64>, m: nat) {
    m <= |a| && |t| == |a| - m && m <= |t|
    && forall i | 0 <= i < |t| :: t[i] == Xor(if i < m then a[i] else Zeros(64), a[m + i])
  }

  lemma HalfSumWords(t: seq<Lane64>, a: seq<Lane64>, m: nat, i: nat)
    requires HalfSum(t, a, m)
    ensures Words(t)(i) == Plus(Words(a[..m]), Words(a[m..]))(i)
  {
  }

  /** A product's bits, past its end as well. */
  lemma ProductBit(r: seq<Lane64>, a: seq<Lane64>, b: seq<Lane64>, p: nat)
    requires IsProduct(r, a, b)
    ensures Words(r)(p) == Mul(Words(a), Words(b), p)
  {
    if p >= 64 * |r| {
      ConvHigh(Words(a), Words(b), p, p + 1, 64 * |a|, 64 * |a|);
    }
  }

  /** Three products of halves make the product. */
  lemma MixedIsProduct(r: seq<Lane64>, a: seq<Lane64>, b: seq<Lane64>, m: nat, z0: seq<Lane64>, z2: seq<Lane64>,
      zm: seq<Lane64>, ta: seq<Lane64>, tb: seq<Lane64>)
    requires |a| == |b| && 2 * m <= |a| && HalfSum(ta, a, m) && HalfSum(tb, b, m)
    requires IsProduct(z0, a[..m], b[..m]) && IsProduct(z2, a[m..], b[m..]) && IsProduct(zm, ta, tb)
    requires |z0| == 2 * m <= |z2|
    requires |r| == 2 * |a| && forall k | 0 <= k < |r| :: k < 2 * m + |z2| && |z0| == 2 * m && |z2| == |zm| &&
                                 r[k] == Mixed(z0, z2, zm, m, k)
    ensures IsProduct(r, a, b)
  {
    hide Mixed, Words, Mul, IsProduct, HalfSum;
    forall p: nat | p < 64 * |r| ensures Words(r)(p) == Mul(Words(a), Words(b), p) {
      var k, j := p / 64, p % 64;
      WordBit(r, k, j, p);
      MixedBit(z0, z2, zm, m, k, j, p);
      MixedAt(a, b, m, z0, z2, zm, ta, tb, p);
    }
    ProductIntro(r, a, b);
  }

  lemma ProductIntro(r: seq<Lane64>, a: seq<Lane64>, b: seq<Lane64>)
    requires |a| == |b| && |r| == 2 * |a| && forall p: nat | p < 64 * |r| :: Words(r)(p) == Mul(Words(a), Words(b), p)
    ensures IsProduct(r, a, b)
  {
  }

  lemma MiddleBit(ta: seq<Lane64>, tb: seq<Lane64>, a: seq<Lane64>, b: seq<Lane64>, m: nat, zm: seq<Lane64>, q: nat)
    requires HalfSum(ta, a, m) && HalfSum(tb, b, m) && IsProduct(zm, ta, tb)
    ensures m <= |a| && m <= |b|
    ensures Words(zm)(q) == Mul(Plus(Words(a[..m]), Words(a[m..])), Plus(Words(b[..m]), Words(b[m..])), q)
  {
    hide Words, Conv, IsProduct, Plus;
    ProductBit(zm, ta, tb, q);
    var f, g := Plus(Words(a[..m]), Words(a[m..])), Plus(Words(b[..m]), Words(b[m..]));
    forall i: nat | i <= q ensures Words(ta)(i) == f(i) && Words(tb)(i) == g(i) {
      HalfSumWords(ta, a, m, i);
      HalfSumWords(tb, b, m, i);
    }
    MulSame(Words(ta), Words(tb), f, g, q);
  }

  lemma MixedAt(a: seq<Lane64>, b: seq<Lane64>, m: nat, z0: seq<Lane64>, z2: seq<Lane64>, zm: seq<Lane64>,
      ta: seq<Lane64>, tb: seq<Lane64>, p: nat)
    requires |a| == |b| && m <= |a| && HalfSum(ta, a, m) && HalfSum(tb, b, m)
    requires IsProduct(z0, a[..m], b[..m]) && IsProduct(z2, a[m..], b[m..]) && IsProduct(zm, ta, tb)
    ensures Mul(Words(a), Words(b), p) == ((Words(z0)(p)
      != (p >= 64 * m && ((Words(zm)(p - 64 * m) != Words(z0)(p - 64 * m)) != Words(z2)(p - 64 * m))))
      != (p >= 128 * m && Words(z2)(p - 128 * m)))
  {
    hide Words, Mul, IsProduct, HalfSum, Plus, Shift;
    var s := 64 * m;
    forall i: nat ensures Words(a)(i) == (Words(a[..m])(i) != Shift(Words(a[m..]), s)(i)) { WordsSplit(a, m, i); }
    forall i: nat ensures Words(b)(i) == (Words(b[..m])(i) != Shift(Words(b[m..]), s)(i)) { WordsSplit(b, m, i); }
    KaratsubaIdentity(Words(a), Words(a[..m]), Words(a[m..]), Words(b), Words(b[..m]), Words(b[m..]), s, p);
    ProductBit(z0, a[..m], b[..m], p);
    if p >= s {
      ProductBit(z0, a[..m], b[..m], p - s);
      ProductBit(z2, a[m..], b[m..], p - s);
      MiddleBit(ta, tb, a, b, m, zm, p - s);
    }
    if p >= 2 * s { ProductBit(z2, a[m..], b[m..], p - 2 * s); }
  }

  // ------------------------------------------------------------ the recursion

  /** The scratch words the recursion needs. */
  function Scratch(n: nat): nat { if n <= 1 then 0 else 8 * n + Scratch(n - n / 2) }

  lemma {:induction false} ScratchMono(m: nat, n: nat)
    requires m <= n
    ensures Scratch(m) <= Scratch(n)
    decreases n
  {
    if m > 1 { ScratchMono(m - m / 2, n - n / 2); }
  }

  function HalfWord(a: seq<Lane64>, m: nat, i: nat): Lane64
    requires m <= |a| && i < |a| - m <= |a|
  {
    Xor(if i < m then a[i] else Zeros(64), a[m + i])
  }

  /** The halves' sums, into the buffer. */
  method SumHalves(mem: array<Lane64>, t: nat, a: seq<Lane64>, m: nat)
    requires m <= |a| - m && t + |a| <= mem.Length
    modifies mem
    ensures HalfSum(mem[t..t + |a| - m], a, m) && OnlyAt(mem, t, |a|)
  {
    hide HalfWord;
    var n1 := |a| - m;
    for i := 0 to n1
      invariant forall k | t <= k < t + i :: mem[k] == HalfWord(a, m, k - t)
      invariant OnlyAt(mem, t, |a|)
    {
      HalfWordIs(a, m, i);
      mem[t + i] := Xor(if i < m then a[i] else Zeros(64), a[m + i]);
    }
    HalfSumIntro(mem[t..t + n1], a, m);
  }

  lemma HalfWordIs(a: seq<Lane64>, m: nat, i: nat)
    requires m <= |a| && i < |a| - m
    ensures HalfWord(a, m, i) == Xor(if i < m then a[i] else Zeros(64), a[m + i])
  {
  }

  lemma HalfSumIntro(t: seq<Lane64>, a: seq<Lane64>, m: nat)
    requires m <= |a| - m == |t| && forall i | 0 <= i < |t| :: t[i] == HalfWord(a, m, i)
    ensures HalfSum(t, a, m)
  {
  }

  /** The four loops that mix three products into the result. */
  method Mix(mem: array<Lane64>, ro: nat, m: nat, z0: seq<Lane64>, z2: seq<Lane64>, zm: seq<Lane64>)
    requires |z0| == 2 * m && |z2| == |zm| && ro + 2 * m + |z2| <= mem.Length
    modifies mem
    ensures forall k | ro <= k < ro + 2 * m + |z2| :: mem[k] == Mixed(z0, z2, zm, m, k - ro)
    ensures OnlyAt(mem, ro, 2 * m + |z2|)
  {
    hide Mixed;
    var n := 2 * m + |z2|;
    Clear(mem, ro, n);
    for i := 0 to 2 * m
      invariant forall k | ro <= k < ro + n :: mem[k] == if k - ro < i then z0[k - ro] else Zeros(64)
      invariant OnlyAt(mem, ro, n)
    {
      XorZeros(z0[i]);
      mem[ro + i] := Xor(mem[ro + i], z0[i]);
    }
    MixHigh(mem, ro, m, z0, z2, zm);
  }

  lemma XorZeros(w: Lane64)
    ensures Xor(Zeros(64), w) == w
  {
  }

  function Base(z0: seq<Lane64>, z2: seq<Lane64>, m: nat, k: nat): Lane64
    requires |z0| == 2 * m && k < 2 * m + |z2|
  {
    if k < 2 * m then z0[k] else z2[k - 2 * m]
  }

  lemma MixedIs(z0: seq<Lane64>, z2: seq<Lane64>, zm: seq<Lane64>, m: nat, k: nat)
    requires |z0| == 2 * m && |z2| == |zm| && k < 2 * m + |z2|
    ensures Mixed(z0, z2, zm, m, k) == if m <= k < m + |z2|
      then Xor(Base(z0, z2, m, k), Xor(Xor(zm[k - m], if k - m < 2 * m then z0[k - m] else Zeros(64)), z2[k - m]))
      else Base(z0, z2, m, k)
  {
  }

  method MixHigh(mem: array<Lane64>, ro: nat, m: nat, z0: seq<Lane64>, z2: seq<Lane64>, zm: seq<Lane64>)
    requires |z0| == 2 * m && |z2| == |zm| && ro + 2 * m + |z2| <= mem.Length
    requires forall k | ro <= k < ro + 2 * m + |z2| :: mem[k] == if k - ro < 2 * m then z0[k - ro] else Zeros(64)
    modifies mem
    ensures forall k | ro <= k < ro + 2 * m + |z2| :: mem[k] == Mixed(z0, z2, zm, m, k - ro)
    ensures OnlyAt(mem, ro, 2 * m + |z2|)
  {
    hide Mixed;
    var n := 2 * m + |z2|;
    for i := 0 to |z2|
      invariant forall k | ro <= k < ro + n :: mem[k] == if k - ro < 2 * m + i then Base(z0, z2, m, k - ro)
                  else Zeros(64)
      invariant OnlyAt(mem, ro, n)
    {
      XorZeros(z2[i]);
      mem[ro + 2 * m + i] := Xor(mem[ro + 2 * m + i], z2[i]);
    }
    MixMiddle(mem, ro, m, z0, z2, zm);
  }

  method MixMiddle(mem: array<Lane64>, ro: nat, m: nat, z0: seq<Lane64>, z2: seq<Lane64>, zm: seq<Lane64>)
    requires |z0| == 2 * m && |z2| == |zm| && ro + 2 * m + |z2| <= mem.Length
    requires forall k | ro <= k < ro + 2 * m + |z2| :: mem[k] == Base(z0, z2, m, k - ro)
    modifies mem
    ensures forall k | ro <= k < ro + 2 * m + |z2| :: mem[k] == Mixed(z0, z2, zm, m, k - ro)
    ensures OnlyAt(mem, ro, 2 * m + |z2|)
  {
    hide Mixed, Base;
    var n := 2 * m + |z2|;
    for i := 0 to |z2|
      invariant forall k | ro + m <= k < ro + m + i :: mem[k] == Mixed(z0, z2, zm, m, k - ro)
      invariant forall k | ro <= k < ro + m || ro + m + i <= k < ro + n :: mem[k] == Base(z0, z2, m, k - ro)
      invariant OnlyAt(mem, ro, n)
    {
      MixedIs(z0, z2, zm, m, m + i);
      var z0i := if i < 2 * m then z0[i] else Zeros(64);
      mem[ro + m + i] := Xor(mem[ro + m + i], Xor(Xor(zm[i], z0i), z2[i]));
    }
    forall k | ro <= k < ro + n ensures mem[k] == Mixed(z0, z2, zm, m, k - ro) { MixedIs(z0, z2, zm, m, k - ro); }
  }

  /** Nothing changed but the result and the scratch. */
  twostate predicate Confined(mem: array<Lane64>, ro: nat, n: nat, to: nat, used: nat)
    reads mem
  {
    forall k | 0 <= k < mem.Length && !(ro <= k < ro + n) && !(to <= k < to + used) :: mem[k] == old(mem[k])
  }

  lemma ScratchStep(n: nat)
    requires 2 <= n
    ensures Scratch(n) == 8 * n + Scratch(n - n / 2) && Scratch(n / 2) <= Scratch(n - n / 2)
  {
    ScratchMono(n / 2, n - n / 2);
  }

  /** Low times low and high times high. */
  method OuterProducts(mem: array<Lane64>, a: seq<Lane64>, b: seq<Lane64>, to: nat, cut: nat)
    requires 1 <= cut && 2 <= |a| == |b| && to + Scratch(|a|) <= mem.Length
    modifies mem
    ensures to + 8 * |a| <= mem.Length
    ensures IsProduct(mem[to..to + 2 * (|a| / 2)], a[..|a| / 2], b[..|a| / 2])
    ensures IsProduct(mem[to + 2 * |a|..to + 2 * |a| + 2 * (|a| - |a| / 2)], a[|a| / 2..], b[|a| / 2..])
    ensures Confined(mem, to, 0, to, Scratch(|a|))
    decreases |a|, 0
  {
    hide IsProduct, Scratch;
    var n, m := |a|, |a| / 2;
    ScratchStep(n);
    Multiply(mem, to, a[..m], b[..m], to + 8 * n, cut);
    ghost var z0 := mem[to..to + 2 * m];
    Multiply(mem, to + 2 * n, a[m..], b[m..], to + 8 * n, cut);
    assert mem[to..to + 2 * m] == z0;
  }

  /** The halves' sums and their product. */
  method MiddleProduct(mem: array<Lane64>, a: seq<Lane64>, b: seq<Lane64>, to: nat, cut: nat)
      returns (ghost ta: seq<Lane64>, ghost tb: seq<Lane64>)
    requires 1 <= cut && 2 <= |a| == |b| && to + Scratch(|a|) <= mem.Length
    modifies mem
    ensures HalfSum(ta, a, |a| / 2) && HalfSum(tb, b, |a| / 2) && to + 8 * |a| <= mem.Length
    ensures IsProduct(mem[to + 4 * |a|..to + 4 * |a| + 2 * (|a| - |a| / 2)], ta, tb)
    ensures forall k | 0 <= k < mem.Length && !(to + 4 * |a| <= k < to + Scratch(|a|)) :: mem[k] == old(mem[k])
    decreases |a|, 0
  {
    hide IsProduct, HalfSum, Scratch;
    var n, m := |a|, |a| / 2;
    var n1 := n - m;
    ScratchStep(n);
    SumHalves(mem, to + 6 * n, a, m);
    ta := mem[to + 6 * n..to + 6 * n + n1];
    SumHalves(mem, to + 7 * n, b, m);
    tb := mem[to + 7 * n..to + 7 * n + n1];
    assert mem[to + 6 * n..to + 6 * n + n1] == ta;
    Multiply(mem, to + 4 * n, mem[to + 6 * n..to + 6 * n + n1], mem[to + 7 * n..to + 7 * n + n1], to + 8 * n, cut);
  }

  /** The three half-size products, in the scratch's first 6 n words. */
  method HalfProducts(mem: array<Lane64>, a: seq<Lane64>, b: seq<Lane64>, to: nat, cut: nat)
      returns (ghost ta: seq<Lane64>, ghost tb: seq<Lane64>)
    requires 1 <= cut && 2 <= |a| == |b| && to + Scratch(|a|) <= mem.Length
    modifies mem
    ensures HalfSum(ta, a, |a| / 2) && HalfSum(tb, b, |a| / 2) && to + 8 * |a| <= mem.Length
    ensures IsProduct(mem[to..to + 2 * (|a| / 2)], a[..|a| / 2], b[..|a| / 2])
    ensures IsProduct(mem[to + 2 * |a|..to + 2 * |a| + 2 * (|a| - |a| / 2)], a[|a| / 2..], b[|a| / 2..])
    ensures IsProduct(mem[to + 4 * |a|..to + 4 * |a| + 2 * (|a| - |a| / 2)], ta, tb)
    ensures Confined(mem, to, 0, to, Scratch(|a|))
    decreases |a|, 1
  {
    hide IsProduct, HalfSum, Scratch;
    var n, m := |a|, |a| / 2;
    OuterProducts(mem, a, b, to, cut);
    ghost var z0, z2 := mem[to..to + 2 * m], mem[to + 2 * n..to + 2 * n + 2 * (n - m)];
    ta, tb := MiddleProduct(mem, a, b, to, cut);
    assert mem[to..to + 2 * m] == z0;
    assert mem[to + 2 * n..to + 2 * n + 2 * (n - m)] == z2;
  }

  /** One level of the recursion. */
  method SplitMultiply(mem: array<Lane64>, ro: nat, a: seq<Lane64>, b: seq<Lane64>, to: nat, cut: nat)
    requires 1 <= cut && 2 <= |a| == |b| && ro + 2 * |a| <= to && to + Scratch(|a|) <= mem.Length
    modifies mem
    ensures IsProduct(mem[ro..ro + 2 * |a|], a, b)
    ensures Confined(mem, ro, 2 * |a|, to, Scratch(|a|))
    decreases |a|, 2
  {
    hide IsProduct, HalfSum, Scratch, Mixed;
    var n := |a|;
    var m := n / 2;
    var n1 := n - m;
    ghost var ta, tb := HalfProducts(mem, a, b, to, cut);
    var z0, z2, zm := mem[to..to + 2 * m], mem[to + 2 * n..to + 2 * n + 2 * n1], mem[to + 4 * n..to + 4 * n + 2 * n1];
    Mix(mem, ro, m, z0, z2, zm);
    ghost var r := mem[ro..ro + 2 * n];
    MixedIsProduct(r, a, b, m, z0, z2, zm, ta, tb);
  }

  /** Karatsuba down to `cut` words: the exact product at ro, the scratch never past Scratch(n) words,
      everything else in the buffer as it was. */
  method Multiply(mem: array<Lane64>, ro: nat, a: seq<Lane64>, b: seq<Lane64>, to: nat, cut: nat)
    requires 1 <= cut && |a| == |b| && ro + 2 * |a| <= to && to + Scratch(|a|) <= mem.Length
    modifies mem
    ensures IsProduct(mem[ro..ro + 2 * |a|], a, b)
    ensures Confined(mem, ro, 2 * |a|, to, Scratch(|a|))
    decreases |a|, 3
  {
    hide IsProduct, Scratch;
    if |a| <= cut { School(mem, ro, a, b); } else { SplitMultiply(mem, ro, a, b, to, cut); }
  }

  // ------------------------------------------------------------ modulo x^N - 1

  /** The first n terms of the cyclic convolution at p. */
  predicate Cyclic(f: Poly, g: Poly, N: nat, p: nat, n: nat)
    requires p < N && n <= N
    decreases n
  {
    if n == 0 then false else
      var i := n - 1;
      Cyclic(f, g, N, p, n - 1) != (f(i) && g(if i <= p then p - i else p + N - i))
  }

  lemma {:induction false} CyclicLow(f: Poly, g: Poly, N: nat, p: nat, n: nat)
    requires p < N && n <= p + 1
    ensures Cyclic(f, g, N, p, n) == Conv(f, g, p, n)
    decreases n
  {
    if n > 0 { CyclicLow(f, g, N, p, n - 1); }
  }

  lemma {:induction false} CyclicHigh(f: Poly, g: Poly, N: nat, p: nat, n: nat)
    requires p < N && p + 1 <= n <= N
    ensures Cyclic(f, g, N, p, n) == (Cyclic(f, g, N, p, p + 1) != (Conv(f, g, p + N, n) != Conv(f, g, p + N, p + 1)))
    decreases n
  {
    if n > p + 1 { CyclicHigh(f, g, N, p, n - 1); }
  }

  lemma {:induction false} ConvPastRight(f: Poly, g: Poly, p: nat, n: nat, N: nat)
    requires n <= p + 1 && (forall i: nat | i >= N :: !g(i)) && (n > 0 ==> p - (n - 1) >= N)
    ensures !Conv(f, g, p, n)
    decreases n
  {
    if n > 0 { ConvPastRight(f, g, p, n - 1, N); }
  }

  lemma {:induction false} ConvPastLeft(f: Poly, g: Poly, p: nat, n: nat, N: nat)
    requires N <= n <= p + 1 && forall i: nat | i >= N :: !f(i)
    ensures Conv(f, g, p, n) == Conv(f, g, p, N)
    decreases n
  {
    if n > N { ConvPastLeft(f, g, p, n - 1, N); }
  }

  /** Folding the high half onto the low half is reduction modulo x^N - 1. */
  lemma FoldIsCyclic(f: Poly, g: Poly, N: nat, p: nat)
    requires p < N && (forall i: nat | i >= N :: !f(i)) && forall i: nat | i >= N :: !g(i)
    ensures (Mul(f, g, p) != Mul(f, g, p + N)) == Cyclic(f, g, N, p, N)
  {
    hide Conv, Cyclic;
    CyclicLow(f, g, N, p, p + 1);
    CyclicHigh(f, g, N, p, N);
    ConvPastRight(f, g, p + N, p + 1, N);
    ConvPastLeft(f, g, p + N, p + N + 1, N);
  }

  /** Word i of the fold: prod shifted down by N places and added. */
  function FoldWord(prod: seq<Lane64>, nw: nat, s: nat, i: nat): Lane64
    requires 0 < nw && |prod| == 2 * nw && i < nw && s < 64
  {
    Xor(Xor(prod[i], Shr(prod[i + nw - 1], s)), Shl(prod[i + nw], 64 - s))
  }

  lemma FoldBit(prod: seq<Lane64>, nw: nat, s: nat, i: nat, j: nat, N: nat, p: nat)
    requires 0 < nw && |prod| == 2 * nw && i < nw && 0 < s < 64 && j < 64 && N == 64 * (nw - 1) + s && p == 64 * i + j
    ensures FoldWord(prod, nw, s, i)[j] == (Words(prod)(p) != Words(prod)(p + N))
  {
    FoldWordBit(prod, nw, s, i, j);
    hide Words, FoldWord, BitAt;
    WordBit(prod, i, j, p);
    if j + s < 64 {
      WordBit(prod, i + nw - 1, j + s, p + N);
    } else {
      WordBit(prod, i + nw, j + s - 64, p + N);
    }
  }

  lemma FoldWordBit(prod: seq<Lane64>, nw: nat, s: nat, i: nat, j: nat)
    requires 0 < nw && |prod| == 2 * nw && i < nw && 0 < s < 64 && j < 64
    ensures FoldWord(prod, nw, s, i)[j] == (BitAt(prod, i, j)
      != (if j + s < 64 then BitAt(prod, i + nw - 1, j + s) else BitAt(prod, i + nw, j + s - 64)))
  {
  }

  /** The top word's unused bits cleared. */
  function TopMask(s: nat): (m: Lane64) { seq(64, j requires 0 <= j < 64 => j < s) }

  /** o = a b mod (x^N - 1). */
  method MultiplyCyclic(a: seq<Lane64>, b: seq<Lane64>, N: nat, cut: nat) returns (o: seq<Lane64>)
    requires 1 <= cut && N % 64 != 0 && |a| == |b| == N / 64 + 1
    requires (forall i: nat | i >= N :: !Words(a)(i)) && forall i: nat | i >= N :: !Words(b)(i)
    ensures |o| == |a|
    ensures forall p: nat | p < 64 * |o| :: Words(o)(p) == (p < N && Cyclic(Words(a), Words(b), N, p, N))
  {
    hide IsProduct, Scratch, FoldWord, Words, Cyclic, Mul;
    var nw, s := |a|, N % 64;
    var mem := new Lane64[2 * nw + Scratch(nw) + 1](_ => Zeros(64));
    Multiply(mem, 0, a, b, 2 * nw, cut);
    var prod := mem[0..0 + 2 * nw];
    o := FoldProduct(prod, nw, s);
    ghost var folded := o;
    o := o[nw - 1 := And(o[nw - 1], TopMask(s))];
    FoldedWords(o, folded, prod, a, b, N);
  }

  /** The product's high half folded onto its low half, word by word. */
  method FoldProduct(prod: seq<Lane64>, nw: nat, s: nat) returns (o: seq<Lane64>)
    requires 0 < nw && |prod| == 2 * nw && s < 64
    ensures |o| == nw && forall k | 0 <= k < nw :: o[k] == FoldWord(prod, nw, s, k)
  {
    hide FoldWord;
    o := [];
    for i := 0 to nw
      invariant |o| == i && forall k | 0 <= k < i :: o[k] == FoldWord(prod, nw, s, k)
    {
      FoldIs(prod, nw, s, i);
      o := o + [Xor(Xor(prod[i], Shr(prod[i + nw - 1], s)), Shl(prod[i + nw], 64 - s))];
    }
  }

  lemma FoldIs(prod: seq<Lane64>, nw: nat, s: nat, i: nat)
    requires 0 < nw && |prod| == 2 * nw && i < nw && s < 64
    ensures FoldWord(prod, nw, s, i) == Xor(Xor(prod[i], Shr(prod[i + nw - 1], s)), Shl(prod[i + nw], 64 - s))
  {
  }

  lemma FoldedWords(o: seq<Lane64>, folded: seq<Lane64>, prod: seq<Lane64>, a: seq<Lane64>, b: seq<Lane64>, N: nat)
    requires N % 64 != 0 && |a| == |b| == |o| == |folded| == N / 64 + 1 && |prod| == 2 * |a| && IsProduct(prod, a, b)
    requires (forall i: nat | i >= N :: !Words(a)(i)) && forall i: nat | i >= N :: !Words(b)(i)
    requires forall k | 0 <= k < |a| :: folded[k] == FoldWord(prod, |a|, N % 64, k)
    requires o == folded[|a| - 1 := And(folded[|a| - 1], TopMask(N % 64))]
    ensures forall p: nat | p < 64 * |o| :: Words(o)(p) == (p < N && Cyclic(Words(a), Words(b), N, p, N))
  {
    hide IsProduct, FoldWord, Words, Cyclic, Mul;
    var nw, s := |a|, N % 64;
    assert N == 64 * (nw - 1) + s;
    forall p: nat | p < 64 * |o| ensures Words(o)(p) == (p < N && Cyclic(Words(a), Words(b), N, p, N)) {
      var i, j := p / 64, p % 64;
      WordBit(o, i, j, p);
      FoldBit(prod, nw, s, i, j, N, p);
      ProductBit(prod, a, b, p);
      ProductBit(prod, a, b, p + N);
      if p < N { FoldIsCyclic(Words(a), Words(b), N, p); }
    }
  }
}
