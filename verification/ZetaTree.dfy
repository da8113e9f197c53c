/** The constants of the transform tree: bit-reversed exponents of a root of X^2t = -1. */
module ZetaTree {
  import opened ModArith
  import opened NttTree
  import opened NegacyclicRing

  /** The exponent at node k: half of the parent's, plus t at the right child. */
  function Exp(k: nat, t: nat): (e: nat)
    ensures 0 < t ==> e < 2 * t
  {
    if k <= 1 then t else Exp(k / 2, t) / 2 + (if k % 2 == 1 then t else 0)
  }

  function Zeta(root: int, t: nat): nat -> int { (k: nat) => Power(root, Exp(k, t)) }

  /** The reciprocal, the root having order 4t. */
  function ZetaInv(root: int, t: nat): nat -> int
    requires 0 < t
  {
    (k: nat) => Power(root, 4 * t - Exp(k, t))
  }

  /** root^2t = -1. */
  ghost predicate HalfTurn(root: int, t: nat, q: int) requires 0 < q { Cong(Power(root, 2 * t), -1, q) }

  /** Adding 2t to an exponent negates the power. */
  lemma PowerTurn(root: int, t: nat, n: nat, q: int)
    requires 0 < q && HalfTurn(root, t, q)
    ensures Cong(Power(root, n + 2 * t), -Power(root, n), q)
  {
    PowerAdd(root, n, 2 * t);
    CongScale(Power(root, n), Power(root, 2 * t), -1, q);
  }

  lemma ZetaReciprocal(root: int, t: nat, q: int)
    requires 0 < q && 0 < t && HalfTurn(root, t, q)
    ensures Reciprocal(Zeta(root, t), ZetaInv(root, t), q)
  {
    hide Power, HalfTurn, Exp, Cong;
    PowerTurn(root, t, 2 * t, q);
    NegOfMinusOne(root, t, q);
    forall k: nat | 1 <= k
      ensures Cong(ZetaInv(root, t)(k) * Zeta(root, t)(k), 1, q)
    {
      var e := Exp(k, t);
      PowerAdd(root, 4 * t - e, e);
      assert 4 * t - e + e == 2 * t + 2 * t;
    }
  }

  lemma NegOfMinusOne(root: int, t: nat, q: int)
    requires 0 < q && HalfTurn(root, t, q) && Cong(Power(root, 2 * t + 2 * t), -Power(root, 2 * t), q)
    ensures Cong(Power(root, 2 * t + 2 * t), 1, q)
  {
    hide Power;
    CongScale(-1, Power(root, 2 * t), -1, q);
    CongTrans(Power(root, 2 * t + 2 * t), -Power(root, 2 * t), 1, q);
  }

  /** While the exponents stay even, each child's constant is a square root of what its
      parent split off. */
  lemma {:induction false} ZetaCompatible(root: int, t: nat, d: nat, k: nat, rho: int, q: int)
    requires 0 < q && 0 < t && HalfTurn(root, t, q) && 1 <= k
    requires 0 < d ==> Exp(k, t) % Pow2(d - 1) == 0 && t % Pow2(d - 1) == 0 && Cong(Power(root, 2 * Exp(k, t)), rho, q)
    ensures Compatible(d, k, rho, Zeta(root, t), q)
    decreases d
  {
    hide Power, HalfTurn, Cong, Exp;
    if d > 0 {
      var e := Exp(k, t);
      PowerAdd(root, e, e);
      if d > 1 {
        ChildExp(k, t);
        HalfDivides(e, d - 1);
        HalfDivides(t, d - 1);
        SumDivides(e / 2, t, Pow2(d - 2));
        CongRefl(Power(root, e), q);
        ZetaCompatible(root, t, d - 1, 2 * k, Power(root, e), q);
        PowerTurn(root, t, e, q);
        ZetaCompatible(root, t, d - 1, 2 * k + 1, -Power(root, e), q);
      }
    }
  }

  lemma ChildExp(k: nat, t: nat)
    requires 1 <= k
    ensures Exp(2 * k, t) == Exp(k, t) / 2 && Exp(2 * k + 1, t) == Exp(k, t) / 2 + t
  {
    hide Exp;
    ExpStep(2 * k, t);
    ExpStep(2 * k + 1, t);
  }

  lemma ExpStep(k: nat, t: nat)
    requires 2 <= k
    ensures Exp(k, t) == Exp(k / 2, t) / 2 + (if k % 2 == 1 then t else 0)
  {
  }

  lemma HalfDivides(e: nat, d: nat)
    requires 0 < d && e % Pow2(d) == 0
    ensures e % 2 == 0 && (e / 2) % Pow2(d - 1) == 0 && e % Pow2(d - 1) == 0
  {
    var p := Pow2(d - 1);
    var m := e / (2 * p);
    assert e == (2 * p) * m == 2 * (p * m);
    DivModUnique(e, 2, p * m, 0);
    assert e / 2 == m * p && e == (2 * m) * p;
    DivModUnique(e / 2, p, m, 0);
    DivModUnique(e, p, 2 * m, 0);
  }

  lemma SumDivides(a: nat, b: nat, p: nat)
    requires 0 < p && a % p == 0 && b % p == 0
    ensures (a + b) % p == 0
  {
    var m, n := a / p, b / p;
    assert a + b == (m + n) * p;
    DivModUnique(a + b, p, m + n, 0);
  }

  // ------------------------------------------------------------ bit reversal

  /** The n low bits of k, reversed. */
  function Brv(k: nat, n: nat): nat
    decreases n
  {
    if n == 0 then 0 else (k % 2) * Pow2(n - 1) + Brv(k / 2, n - 1)
  }

  lemma {:induction false} BrvWider(k: nat, n: nat)
    requires k < Pow2(n)
    ensures Brv(k, n + 1) == 2 * Brv(k, n)
    decreases n
  {
    if n > 0 {
      BrvWider(k / 2, n - 1);
      assert (k % 2) * Pow2(n) == 2 * ((k % 2) * Pow2(n - 1));
    }
  }

  /** The tree's exponents are the bit reversals of the node numbers. */
  lemma {:induction false} ExpIsBrv(k: nat, n: nat)
    requires 0 < n && 1 <= k < Pow2(n)
    ensures Exp(k, Pow2(n - 1)) == Brv(k, n)
    decreases k
  {
    if k == 1 {
      BrvZero(n - 1);
    } else {
      ExpIsBrv(k / 2, n);
      BrvWider(k / 2, n - 1);
      if k % 2 == 1 { assert (k % 2) * Pow2(n - 1) == Pow2(n - 1); } else { assert (k % 2) * Pow2(n - 1) == 0; }
    }
  }

  lemma {:induction false} BrvZero(n: nat)
    ensures Brv(0, n) == 0
  {
    if n > 0 { BrvZero(n - 1); }
  }

  /** The inverse transforms walk the table backwards: node k of a level of width w meets the
      entry 3w - 1 - k, whose exponent completes 2t. */
  lemma {:induction false} ExpMirror(l: nat, k: nat, t: nat)
    requires Pow2(l) <= k < 2 * Pow2(l)
    requires t % Pow2(l) == 0
    ensures 1 <= 3 * Pow2(l) - 1 - k
    ensures Exp(k, t) + Exp(3 * Pow2(l) - 1 - k, t) == 2 * t
    decreases l
  {
    if l > 0 {
      HalfDivides(t, l);
      var w := Pow2(l - 1);
      var m := 3 * (2 * w) - 1 - k;
      assert m / 2 == 3 * w - 1 - k / 2 && m % 2 != k % 2;
      ExpMirror(l - 1, k / 2, t);
      ExpEven(l - 1, k / 2, t);
      ExpEven(l - 1, m / 2, t);
    }
  }

  /** Above the last level the exponents are even. */
  lemma {:induction false} ExpEven(l: nat, k: nat, t: nat)
    requires Pow2(l) <= k < 2 * Pow2(l) && t % Pow2(l + 1) == 0
    ensures Exp(k, t) % 2 == 0
  {
    ExpDivisible(l, l + 1, k, t);
    HalfDivides(Exp(k, t), 1);
  }

  lemma {:induction false} ExpDivisible(l: nat, n: nat, k: nat, t: nat)
    requires l < n && Pow2(l) <= k < 2 * Pow2(l) && t % Pow2(n) == 0
    ensures Exp(k, t) % Pow2(n - l) == 0
    decreases l
  {
    if l > 0 {
      ExpDivisible(l - 1, n, k / 2, t);
      HalfDivides(Exp(k / 2, t), n - l + 1);
      LowerPowerDivides(t, n, n - l);
      SumDivides(Exp(k / 2, t) / 2, t, Pow2(n - l));
    }
  }

  lemma {:induction false} LowerPowerDivides(t: nat, n: nat, m: nat)
    requires m <= n && t % Pow2(n) == 0
    ensures t % Pow2(m) == 0
    decreases n
  {
    if m < n {
      HalfDivides(t, n);
      LowerPowerDivides(t, n - 1, m);
    }
  }

  /** Squaring step for the constant powers of a root. */
  lemma PowerSquare(root: int, n: nat, v: int, w: int, q: int)
    requires 0 < q && Cong(Power(root, n), v, q) && (v * v - w) % q == 0
    ensures Cong(Power(root, n + n), w, q)
  {
    hide Power;
    PowerAdd(root, n, n);
    CongMul(Power(root, n), v, Power(root, n), v, q);
    CongTrans(Power(root, n + n), v * v, w, q);
  }

  lemma BrvUnfold(k: nat, n: nat)
    requires 0 < n
    ensures Brv(k, n) == (if k % 2 == 1 then Pow2(n - 1) else 0) + Brv(k / 2, n - 1)
  {
  }

  lemma {:induction false} BrvBound(k: nat, n: nat)
    ensures Brv(k, n) < Pow2(n)
    decreases n
  {
    if n > 0 {
      BrvBound(k / 2, n - 1);
      assert (k % 2) * Pow2(n - 1) <= Pow2(n - 1);
    }
  }

  lemma PowerOne(x: int)
    ensures Power(x, 1) == x
  {
    assert Power(x, 0) == 1;
  }
}
