/** Z[X]/(X^n + 1): the schoolbook product, evaluation, and the theorem that the transform
    tree evaluates a polynomial at the roots of its leaves, so that pointwise products of
    transforms are transforms of negacyclic products. */
module NegacyclicRing {
  import opened ModArith
  import opened NttTree

  /** a[0] + a[1] x + a[2] x^2 + ... */
  function Eval(a: seq<int>, x: int): int {
    if a == [] then 0 else a[0] + x * Eval(a[1..], x)
  }

  function Power(x: int, n: nat): int {
    if n == 0 then 1 else x * Power(x, n - 1)
  }

  lemma {:induction false} PowerAdd(x: int, m: nat, n: nat)
    ensures Power(x, m + n) == Power(x, m) * Power(x, n)
    decreases m
  {
    if m > 0 {
      PowerAdd(x, m - 1, n);
      assert m + n - 1 == (m - 1) + n;
      assert x * (Power(x, m - 1) * Power(x, n)) == (x * Power(x, m - 1)) * Power(x, n);
    }
  }

  // ------------------------------------------------------------ evaluation is linear

  lemma {:induction false} EvalPlus(a: seq<int>, b: seq<int>, x: int)
    requires |a| == |b|
    ensures Eval(Plus(a, b), x) == Eval(a, x) + Eval(b, x)
    decreases |a|
  {
    if a != [] {
      EvalPlus(a[1..], b[1..], x);
      assert Plus(a, b)[1..] == Plus(a[1..], b[1..]);
      Distribute(x, Eval(a[1..], x), Eval(b[1..], x));
    }
  }

  lemma {:induction false} EvalScale(s: int, a: seq<int>, x: int)
    ensures Eval(Scale(s, a), x) == s * Eval(a, x)
    decreases |a|
  {
    if a != [] {
      EvalScale(s, a[1..], x);
      assert Scale(s, a)[1..] == Scale(s, a[1..]);
      var e := Eval(a[1..], x);
      assert x * (s * e) == s * (x * e);
      Distribute(s, a[0], x * e);
    }
  }

  lemma {:induction false} EvalAppend(a: seq<int>, b: seq<int>, x: int)
    ensures Eval(a + b, x) == Eval(a, x) + Power(x, |a|) * Eval(b, x)
    decreases |a|
  {
    if a == [] {
      assert a + b == b;
    } else {
      EvalAppend(a[1..], b, x);
      assert (a + b)[0] == a[0] && (a + b)[1..] == a[1..] + b;
      var p, e := Power(x, |a| - 1), Eval(b, x);
      Distribute(x, Eval(a[1..], x), p * e);
      assert x * (p * e) == (x * p) * e;
    }
  }

  // ------------------------------------------------------------ the negacyclic product

  /** X^i b modulo X^n + 1. */
  function ShiftNeg(b: seq<int>, i: nat): (r: seq<int>)
    requires i <= |b|
    ensures |r| == |b|
  {
    seq(|b|, k requires 0 <= k < |b| => if i <= k then b[k - i] else -b[|b| + k - i])
  }

  /** Coefficient k of the first m terms of a times b: sum of a_i b_(k-i), with the wrap
      X^n = -1. */
  function ProductCoeff(a: seq<int>, b: seq<int>, k: nat, m: nat): int
    requires |a| == |b| && k < |b| && m <= |a|
    decreases m
  {
    if m == 0 then 0
    else ProductCoeff(a, b, k, m - 1) + a[m - 1] * (if m - 1 <= k then b[k - (m - 1)] else -b[|b| + k - (m - 1)])
  }

  /** The schoolbook product in Z[X]/(X^n + 1). */
  function Product(a: seq<int>, b: seq<int>): (c: seq<int>)
    requires |a| == |b|
    ensures |c| == |a|
  {
    seq(|a|, k requires 0 <= k < |a| => ProductCoeff(a, b, k, |a|))
  }

  function PartialProduct(a: seq<int>, b: seq<int>, m: nat): (c: seq<int>)
    requires |a| == |b| && m <= |a|
    ensures |c| == |a|
  {
    seq(|a|, k requires 0 <= k < |a| => ProductCoeff(a, b, k, m))
  }

  lemma PartialNext(a: seq<int>, b: seq<int>, m: nat)
    requires |a| == |b| && 0 < m <= |a|
    ensures PartialProduct(a, b, m) == Plus(PartialProduct(a, b, m - 1), Scale(a[m - 1], ShiftNeg(b, m - 1)))
  {
  }

  lemma ShiftNegStep(b: seq<int>, i: nat)
    requires i < |b|
    ensures var s := ShiftNeg(b, i);
      ShiftNeg(b, i + 1) == [-s[|b| - 1]] + s[..|b| - 1]
  {
  }

  lemma ShiftArith(e: int, p: int, top: int, x: int, q: int)
    requires 0 < q && Cong(x * p, -1, q)
    ensures Cong(-top + x * e, x * (e + p * top), q)
  {
    Distribute(x, e, p * top);
    assert x * (p * top) == top * (x * p);
    CongScale(top, x * p, -1, q);
    CongSym(top * (x * p), top * -1, q);
    CongRefl(x * e, q);
    CongAdd(top * -1, top * (x * p), x * e, x * e, q);
  }

  /** One more factor X: at a root of X^n + 1 the value is multiplied by x. */
  lemma EvalCons(c: int, s: seq<int>, x: int)
    ensures Eval([c] + s, x) == c + x * Eval(s, x)
  {
    assert ([c] + s)[1..] == s;
  }

  lemma ShiftEnd(u: int, v: int, e: int, p: int, top: int, x: int, q: int)
    requires 0 < q && u == -top + x * e && v == e + p * top && Cong(x * p, -1, q)
    ensures Cong(u, x * v, q)
  {
    hide Cong;
    ShiftArith(e, p, top, x, q);
  }

  lemma PowerNext(x: int, n: nat)
    requires 0 < n
    ensures Power(x, n) == x * Power(x, n - 1)
  {
  }

  lemma ShiftOnce(s: seq<int>, x: int, q: int)
    requires 0 < q && s != [] && Cong(Power(x, |s|), -1, q)
    ensures Cong(Eval([-s[|s| - 1]] + s[..|s| - 1], x), x * Eval(s, x), q)
  {
    hide Eval, Power, Cong;
    var n := |s|;
    var lo, top := s[..n - 1], s[n - 1];
    EvalCons(-top, lo, x);
    EvalLast(s, x);
    PowerNext(x, n);
    ShiftEnd(Eval([-top] + lo, x), Eval(s, x), Eval(lo, x), Power(x, n - 1), top, x, q);
  }

  lemma EvalLast(s: seq<int>, x: int)
    requires s != []
    ensures Eval(s, x) == Eval(s[..|s| - 1], x) + Power(x, |s| - 1) * s[|s| - 1]
  {
    hide Eval, Power;
    var lo, top := s[..|s| - 1], s[|s| - 1];
    EvalAppend(lo, [top], x);
    EvalSingle(top, x);
    assert s == lo + [top];
  }

  lemma {:induction false} EvalShift(b: seq<int>, i: nat, x: int, q: int)
    requires 0 < q && i <= |b| && Cong(Power(x, |b|), -1, q)
    ensures Cong(Eval(ShiftNeg(b, i), x), Power(x, i) * Eval(b, x), q)
    decreases i
  {
    hide ShiftNeg, Eval;
    if i == 0 {
      ShiftNone(b);
      CongRefl(Eval(b, x), q);
    } else {
      var s := ShiftNeg(b, i - 1);
      EvalShift(b, i - 1, x, q);
      ShiftNegStep(b, i - 1);
      ShiftOnce(s, x, q);
      CongScale(x, Eval(s, x), Power(x, i - 1) * Eval(b, x), q);
      CongTrans(Eval(ShiftNeg(b, i), x), x * Eval(s, x), x * (Power(x, i - 1) * Eval(b, x)), q);
      assert x * (Power(x, i - 1) * Eval(b, x)) == Power(x, i) * Eval(b, x);
    }
  }

  lemma ShiftNone(b: seq<int>)
    ensures ShiftNeg(b, 0) == b
  {
  }

  lemma {:induction false} EvalPartial(a: seq<int>, b: seq<int>, m: nat, x: int, q: int)
    requires 0 < q && |a| == |b| && m <= |a| && Cong(Power(x, |b|), -1, q)
    ensures Cong(Eval(PartialProduct(a, b, m), x), Eval(a[..m], x) * Eval(b, x), q)
    decreases m
  {
    hide ShiftNeg, Eval;
    if m == 0 {
      EvalZeros(PartialProduct(a, b, 0), x);
      EvalZeros(a[..0], x);
      CongRefl(0, q);
    } else {
      var s := ShiftNeg(b, m - 1);
      EvalPartial(a, b, m - 1, x, q);
      PartialNext(a, b, m);
      EvalPlus(PartialProduct(a, b, m - 1), Scale(a[m - 1], s), x);
      EvalScale(a[m - 1], s, x);
      EvalShift(b, m - 1, x, q);
      var e, p, f := Eval(b, x), Power(x, m - 1), Eval(a[..m - 1], x);
      CongScale(a[m - 1], Eval(s, x), p * e, q);
      CongAdd(Eval(PartialProduct(a, b, m - 1), x), f * e, a[m - 1] * Eval(s, x), a[m - 1] * (p * e), q);
      assert a[..m] == a[..m - 1] + [a[m - 1]];
      EvalAppend(a[..m - 1], [a[m - 1]], x);
      EvalSingle(a[m - 1], x);
      assert f * e + a[m - 1] * (p * e) == (f + p * a[m - 1]) * e;
    }
  }

  lemma EvalSingle(c: int, x: int)
    ensures Eval([c], x) == c
  {
    assert [c][1..] == [];
  }

  lemma {:induction false} EvalZeros(a: seq<int>, x: int)
    requires forall i | 0 <= i < |a| :: a[i] == 0
    ensures Eval(a, x) == 0
    decreases |a|
  {
    if a != [] { EvalZeros(a[1..], x); }
  }

  /** At every root of X^n + 1 the product evaluates to the product of the values. */
  lemma EvalProduct(a: seq<int>, b: seq<int>, x: int, q: int)
    requires 0 < q && |a| == |b| && Cong(Power(x, |b|), -1, q)
    ensures Cong(Eval(Product(a, b), x), Eval(a, x) * Eval(b, x), q)
  {
    EvalPartial(a, b, |a|, x, q);
    assert a[..|a|] == a;
    assert Product(a, b) == PartialProduct(a, b, |a|);
  }

  // ------------------------------------------------------------ the tree evaluates

  /** Every node's constant squares to what its parent split off. */
  ghost predicate Compatible(d: nat, k: nat, rho: int, z: nat -> int, q: int)
    requires 0 < q
    decreases d
  {
    d == 0 ||
    (Cong(z(k) * z(k), rho, q) && Compatible(d - 1, 2 * k, z(k), z, q) && Compatible(d - 1, 2 * k + 1, -z(k), z, q))
  }

  /** The leaves' points, in transform order: the node's block is modulo X^size - rho. */
  function Points(d: nat, k: nat, rho: int, z: nat -> int): (r: seq<int>)
    ensures |r| == Size(1, d)
    decreases d
  {
    if d == 0 then [rho] else Points(d - 1, 2 * k, z(k), z) + Points(d - 1, 2 * k + 1, -z(k), z)
  }

  /** Each leaf point is a root of the block's modulus. */
  lemma {:induction false} PointsAreRoots(d: nat, k: nat, rho: int, z: nat -> int, q: int, i: nat)
    requires 0 < q && Compatible(d, k, rho, z, q) && i < Size(1, d)
    ensures Cong(Power(Points(d, k, rho, z)[i], Size(1, d)), rho, q)
    decreases d
  {
    var x := Points(d, k, rho, z)[i];
    if d == 0 {
      assert Power(x, 1) == x * Power(x, 0);
      CongRefl(rho, q);
    } else {
      var h := Size(1, d - 1);
      var s := if i < h then z(k) else -z(k);
      if i < h {
        PointsAreRoots(d - 1, 2 * k, z(k), z, q, i);
      } else {
        PointsAreRoots(d - 1, 2 * k + 1, -z(k), z, q, i - h);
      }
      assert Cong(Power(x, h), s, q);
      PowerAdd(x, h, h);
      CongMul(Power(x, h), s, Power(x, h), s, q);
      assert s * s == z(k) * z(k);
      CongTrans(Power(x, h + h), s * s, rho, q);
    }
  }

  lemma HalfArith(lo: int, hi: int, p: int, s: int, q: int)
    requires 0 < q && Cong(p, s, q)
    ensures Cong(lo + s * hi, lo + p * hi, q)
  {
    CongScale(hi, p, s, q);
    CongSym(hi * p, hi * s, q);
    CongRefl(lo, q);
    CongAdd(lo, lo, hi * s, hi * p, q);
  }

  /** A half block agrees with the whole at every root of X^h - s. */
  lemma EvalHalf(a: seq<int>, half: seq<int>, s: int, x: int, q: int)
    requires 0 < q && |a| == 2 * |half| && Cong(Power(x, |half|), s, q)
    requires half == Plus(a[..|half|], Scale(s, a[|half|..]))
    ensures Cong(Eval(half, x), Eval(a, x), q)
  {
    hide Eval, Power, Plus, Scale, Cong;
    var h := |half|;
    var lo, hi := a[..h], a[h..];
    EvalPlus(lo, Scale(s, hi), x);
    EvalScale(s, hi, x);
    EvalAppend(lo, hi, x);
    assert a == lo + hi;
    HalfArith(Eval(lo, x), Eval(hi, x), Power(x, h), s, q);
  }

  lemma HalvesAsSums(a: seq<int>, s: int)
    requires |a| % 2 == 0
    ensures Lower(a, s) == Plus(a[..|a| / 2], Scale(s, a[|a| / 2..]))
    ensures Upper(a, s) == Plus(a[..|a| / 2], Scale(-s, a[|a| / 2..]))
  {
    forall i | 0 <= i < |a| / 2
      ensures Upper(a, s)[i] == Plus(a[..|a| / 2], Scale(-s, a[|a| / 2..]))[i]
    {
      assert (-s) * a[i + |a| / 2] == -(s * a[i + |a| / 2]);
    }
  }

  /** The half that leaf i is in: its constant, its place in the tree, and the leaf's place there. */
  lemma HalfAt(a: seq<int>, d: nat, k: nat, rho: int, z: nat -> int, q: int, i: nat)
    returns (s: int, m: nat, half: seq<int>, j: nat)
    requires 0 < q && 0 < d && |a| == Size(1, d) && Compatible(d, k, rho, z, q) && i < |a|
    ensures |half| == Size(1, d - 1) && |a| == 2 * |half| && j < |half| && Compatible(d - 1, m, s, z, q)
    ensures half == Plus(a[..|half|], Scale(s, a[|half|..]))
    ensures Forward(a, 1, d, k, z)[i] == Forward(half, 1, d - 1, m, z)[j]
    ensures Points(d, k, rho, z)[i] == Points(d - 1, m, s, z)[j]
  {
    hide Cong, Lower, Upper, Plus, Scale;
    HalvesAsSums(a, z(k));
    var h := Size(1, d - 1);
    if i < h {
      s, m, half, j := z(k), 2 * k, Lower(a, z(k)), i;
    } else {
      s, m, half, j := -z(k), 2 * k + 1, Upper(a, z(k)), i - h;
    }
  }

  lemma LeafIsEval(a: seq<int>, k: nat, rho: int, z: nat -> int, q: int)
    requires 0 < q && |a| == Size(1, 0)
    ensures |a| == 1 && Cong(Forward(a, 1, 0, k, z)[0], Eval(a, Points(0, k, rho, z)[0]), q)
  {
    hide Eval, Cong;
    EvalSingle(a[0], rho);
    assert a == [a[0]];
    CongRefl(a[0], q);
  }

  /** Leaf i of the transform is the polynomial's value at point i. */
  lemma {:induction false} ForwardIsEval(a: seq<int>, d: nat, k: nat, rho: int, z: nat -> int, q: int, i: nat)
    requires 0 < q && |a| == Size(1, d) && Compatible(d, k, rho, z, q) && i < |a|
    ensures Cong(Forward(a, 1, d, k, z)[i], Eval(a, Points(d, k, rho, z)[i]), q)
    decreases d
  {
    hide Eval, Power, Cong, Forward, Points, Compatible, Size, Plus, Scale;
    if d == 0 {
      LeafIsEval(a, k, rho, z, q);
    } else {
      var s, m, half, j := HalfAt(a, d, k, rho, z, q, i);
      ForwardIsEval(half, d - 1, m, s, z, q, j);
      PointsAreRoots(d - 1, m, s, z, q, j);
      LeafOfHalf(a, half, s, Points(d - 1, m, s, z)[j], Forward(half, 1, d - 1, m, z)[j], q);
    }
  }

  lemma LeafOfHalf(a: seq<int>, half: seq<int>, s: int, x: int, leaf: int, q: int)
    requires 0 < q && |a| == 2 * |half| && Cong(Power(x, |half|), s, q)
    requires half == Plus(a[..|half|], Scale(s, a[|half|..]))
    requires Cong(leaf, Eval(half, x), q)
    ensures Cong(leaf, Eval(a, x), q)
  {
    hide Eval, Power, Plus, Scale, Cong;
    EvalHalf(a, half, s, x, q);
    CongTrans(leaf, Eval(half, x), Eval(a, x), q);
  }

  function Pointwise(a: seq<int>, b: seq<int>): (r: seq<int>)
    requires |a| == |b|
    ensures |r| == |a| && forall i | 0 <= i < |a| :: r[i] == a[i] * b[i]
  {
    seq(|a|, i requires 0 <= i < |a| => a[i] * b[i])
  }

  /** The transform of the negacyclic product is the pointwise product of the transforms. */
  lemma ForwardOfProduct(a: seq<int>, b: seq<int>, d: nat, z: nat -> int, q: int)
    requires 0 < q && |a| == |b| == Size(1, d) && Compatible(d, 1, -1, z, q)
    ensures CongSeq(Forward(Product(a, b), 1, d, 1, z), Pointwise(Forward(a, 1, d, 1, z), Forward(b, 1, d, 1, z)), q)
  {
    hide Eval, Forward, Product, Points, Power;
    var c := Product(a, b);
    var fa, fb, fc := Forward(a, 1, d, 1, z), Forward(b, 1, d, 1, z), Forward(c, 1, d, 1, z);
    forall i | 0 <= i < |c|
      ensures Cong(fc[i], Pointwise(fa, fb)[i], q)
    {
      var x := Points(d, 1, -1, z)[i];
      ForwardIsEval(a, d, 1, -1, z, q, i);
      ForwardIsEval(b, d, 1, -1, z, q, i);
      ForwardIsEval(c, d, 1, -1, z, q, i);
      PointsAreRoots(d, 1, -1, z, q, i);
      EvalProduct(a, b, x, q);
      CongMul(fa[i], Eval(a, x), fb[i], Eval(b, x), q);
      CongTrans(fc[i], Eval(c, x), Eval(a, x) * Eval(b, x), q);
      CongSym(fa[i] * fb[i], Eval(a, x) * Eval(b, x), q);
      CongTrans(fc[i], Eval(a, x) * Eval(b, x), fa[i] * fb[i], q);
    }
  }
}
