/** Polynomials over GF(2) as coefficient functions, and their product by convolution. */
module BinaryPoly {
  import opened ModArith
  import opened Bits

  type Poly = nat -> bool

  /** Parity of the first n terms of the convolution at p. */
  predicate Conv(f: Poly, g: Poly, p: nat, n: nat)
    requires n <= p + 1
    decreases n
  {
    if n == 0 then false else Conv(f, g, p, n - 1) != (f(n - 1) && g(p - (n - 1)))
  }

  /** Coefficient p of the product. */
  predicate Mul(f: Poly, g: Poly, p: nat) { Conv(f, g, p, p + 1) }

  lemma {:induction false} ConvSame(f: Poly, g: Poly, f': Poly, g': Poly, p: nat, n: nat)
    requires n <= p + 1
    requires forall i | 0 <= i < n :: f(i) == f'(i)
    requires forall i: nat | i <= p :: g(i) == g'(i)
    ensures Conv(f, g, p, n) == Conv(f', g', p, n)
    decreases n
  {
    if n > 0 { ConvSame(f, g, f', g', p, n - 1); }
  }

  /** The product depends on the coefficients up to p alone. */
  lemma MulSame(f: Poly, g: Poly, f': Poly, g': Poly, p: nat)
    requires forall i: nat | i <= p :: f(i) == f'(i) && g(i) == g'(i)
    ensures Mul(f, g, p) == Mul(f', g', p)
  {
    ConvSame(f, g, f', g', p, p + 1);
  }

  lemma {:induction false} ConvAddLeft(f: Poly, f': Poly, h: Poly, g: Poly, p: nat, n: nat)
    requires n <= p + 1 && forall i: nat | i < n :: h(i) == (f(i) != f'(i))
    ensures Conv(h, g, p, n) == (Conv(f, g, p, n) != Conv(f', g, p, n))
    decreases n
  {
    if n > 0 { ConvAddLeft(f, f', h, g, p, n - 1); }
  }

  lemma {:induction false} ConvAddRight(f: Poly, g: Poly, g': Poly, h: Poly, p: nat, n: nat)
    requires n <= p + 1 && forall i: nat | i <= p :: h(i) == (g(i) != g'(i))
    ensures Conv(f, h, p, n) == (Conv(f, g, p, n) != Conv(f, g', p, n))
    decreases n
  {
    if n > 0 { ConvAddRight(f, g, g', h, p, n - 1); }
  }

  /** h = f + f': the product is bilinear. */
  lemma MulAddLeft(f: Poly, f': Poly, h: Poly, g: Poly, p: nat)
    requires forall i: nat | i <= p :: h(i) == (f(i) != f'(i))
    ensures Mul(h, g, p) == (Mul(f, g, p) != Mul(f', g, p))
  {
    ConvAddLeft(f, f', h, g, p, p + 1);
  }

  lemma MulAddRight(f: Poly, g: Poly, g': Poly, h: Poly, p: nat)
    requires forall i: nat | i <= p :: h(i) == (g(i) != g'(i))
    ensures Mul(f, h, p) == (Mul(f, g, p) != Mul(f, g', p))
  {
    ConvAddRight(f, g, g', h, p, p + 1);
  }

  /** x^k f. */
  function Shift(f: Poly, k: nat): Poly { (i: nat) => i >= k && f(i - k) }

  lemma {:induction false} ConvZeroLeft(f: Poly, g: Poly, p: nat, n: nat)
    requires n <= p + 1 && forall i: nat | i < n :: !f(i)
    ensures !Conv(f, g, p, n)
    decreases n
  {
    if n > 0 { ConvZeroLeft(f, g, p, n - 1); }
  }

  lemma {:induction false} ConvShiftLeft(f: Poly, g: Poly, k: nat, p: nat, n: nat)
    requires k <= p && n <= p - k + 1
    ensures Conv(Shift(f, k), g, p, n + k) == Conv(f, g, p - k, n)
    decreases n
  {
    if n == 0 {
      ConvZeroLeft(Shift(f, k), g, p, k);
    } else {
      ConvShiftLeft(f, g, k, p, n - 1);
      assert Shift(f, k)(n + k - 1) == f(n - 1);
    }
  }

  lemma MulShiftLeft(f: Poly, g: Poly, k: nat, p: nat)
    ensures Mul(Shift(f, k), g, p) == (p >= k && Mul(f, g, p - k))
  {
    if p >= k { ConvShiftLeft(f, g, k, p, p - k + 1); } else { ConvZeroLeft(Shift(f, k), g, p, p + 1); }
  }

  lemma {:induction false} ConvShiftRight(f: Poly, g: Poly, k: nat, p: nat, n: nat)
    requires n <= p + 1
    ensures Conv(f, Shift(g, k), p, n) == if p < k then false else if n <= p - k + 1 then Conv(f, g, p - k, n)
      else Conv(f, g, p - k, p - k + 1)
    decreases n
  {
    if n > 0 { ConvShiftRight(f, g, k, p, n - 1); }
  }

  lemma MulShiftRight(f: Poly, g: Poly, k: nat, p: nat)
    ensures Mul(f, Shift(g, k), p) == (p >= k && Mul(f, g, p - k))
  {
    ConvShiftRight(f, g, k, p, p + 1);
  }

  /** Nothing above the degrees' sum. */
  lemma {:induction false} ConvHigh(f: Poly, g: Poly, p: nat, n: nat, df: nat, dg: nat)
    requires n <= p + 1 && df + dg <= p + 1
    requires (forall i: nat | i >= df :: !f(i)) && forall i: nat | i >= dg :: !g(i)
    ensures !Conv(f, g, p, n)
    decreases n
  {
    if n > 0 { ConvHigh(f, g, p, n - 1, df, dg); }
  }

  // ------------------------------------------------------------ words

  /** The polynomial of a string of 64-bit words, low word first. */
  function Words(a: seq<Lane64>): Poly { (i: nat) => i / 64 < |a| && a[i / 64][i % 64] }

  function Word64(w: Lane64): Poly { (i: nat) => i < 64 && w[i] }

  /** Low words and high words. */
  lemma WordsSplit(a: seq<Lane64>, m: nat, i: nat)
    requires m <= |a|
    ensures Words(a)(i) == (Words(a[..m])(i) != Shift(Words(a[m..]), 64 * m)(i))
  {
    if i >= 64 * m {
      assert (i - 64 * m) / 64 == i / 64 - m && (i - 64 * m) % 64 == i % 64;
    }
  }
}
