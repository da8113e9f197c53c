/** What the two transforms are, in the words of their standards: ML-DSA's takes a polynomial to its values at the
    odd powers of 1753, ML-KEM's to its residues modulo X^2 minus the odd powers of 17, both in bit-reversed order. */
module TransformPoints {
  import opened ModArith
  import opened MlDsaModulus
  import opened NttTree
  import opened NegacyclicRing
  import opened NttLoop
  import opened ZetaTree
  import opened MlDsaArith
  import opened MlDsaNtt
  import MlDsaRing
  import opened MlKemArith
  import opened MlKemNtt
  import opened MlKemRing

  // ------------------------------------------------------------ the leaves' points

  lemma {:induction false} PointIs(d: nat, k: nat, rho: int, z: nat -> int, i: nat)
    requires 0 < d && i < Size(1, d)
    ensures Points(d, k, rho, z)[i] == LeafRho(k, d, i, z)
    decreases d
  {
    hide LeafRho;
    SizeIsProduct(1, d - 1);
    var h := Size(1, d - 1);
    if d == 1 {
      LeafOne(k, z);
    } else {
      LeafChild(k, d, i, z);
      if i < h { PointIs(d - 1, 2 * k, z(k), z, i); } else { PointIs(d - 1, 2 * k + 1, -z(k), z, i - h); }
    }
  }

  /** The nodes of the last level carry the odd exponents. */
  lemma {:induction false} BrvTop(j: nat, n: nat)
    requires 0 < n && j < Pow2(n - 1)
    ensures Brv(Pow2(n - 1) + j, n) == 2 * Brv(j, n - 1) + 1
    decreases n
  {
    var x := Pow2(n - 1) + j;
    BrvUnfold(x, n);
    if n > 1 {
      BrvTop(j / 2, n - 1);
      BrvUnfold(j, n - 1);
      Pow2Double(n - 1);
    } else {
      assert Pow2(0) == 1;
    }
  }

  /** Leaf i's constant is the root to 2 brv(i) + 1. */
  lemma LeafPower(root: int, n: nat, i: nat, q: int)
    requires 0 < q && 0 < n && i < Pow2(n) && HalfTurn(root, Pow2(n - 1), q)
    ensures Cong(LeafRho(1, n, i, Zeta(root, Pow2(n - 1))), Power(root, 2 * Brv(i, n) + 1), q)
  {
    hide Power, HalfTurn, Cong, Brv, Exp;
    var t, j := Pow2(n - 1), i / 2;
    Pow2Double(n);
    ExpIsBrv(t + j, n);
    BrvTop(j, n);
    BrvUnfold(i, n);
    LeafNode(root, n, i);
    var e := 2 * Brv(j, n - 1) + 1;
    if i % 2 == 0 {
      CongRefl(Power(root, e), q);
    } else {
      PowerTurn(root, t, e, q);
      CongSym(Power(root, e + 2 * t), -Power(root, e), q);
    }
  }

  lemma LeafNode(root: int, n: nat, i: nat)
    requires 0 < n && i < Pow2(n)
    ensures var p := Power(root, Exp(Pow2(n - 1) + i / 2, Pow2(n - 1)));
      LeafRho(1, n, i, Zeta(root, Pow2(n - 1))) == if i % 2 == 0 then p else -p
  {
    hide Power, Exp, Pow2;
    assert 1 * Pow2(n - 1) == Pow2(n - 1);
  }

  lemma {:induction false} EvalCong(a: seq<int>, x: int, y: int, q: int)
    requires 0 < q && Cong(x, y, q)
    ensures Cong(Eval(a, x), Eval(a, y), q)
    decreases |a|
  {
    hide Cong;
    if a == [] {
      CongRefl(0, q);
    } else {
      EvalCong(a[1..], x, y, q);
      CongMul(x, y, Eval(a[1..], x), Eval(a[1..], y), q);
      CongRefl(a[0], q);
      CongAdd(a[0], a[0], x * Eval(a[1..], x), y * Eval(a[1..], y), q);
    }
  }

  /** A leaf is the value at its power of the root. */
  lemma LeafValue(a: seq<int>, root: int, n: nat, i: nat, q: int)
    requires 0 < q && 0 < n && |a| == Size(1, n) && i < |a| && HalfTurn(root, Pow2(n - 1), q)
    requires Compatible(n, 1, -1, Zeta(root, Pow2(n - 1)), q)
    ensures Cong(Forward(a, 1, n, 1, Zeta(root, Pow2(n - 1)))[i], Eval(a, Power(root, 2 * Brv(i, n) + 1)), q)
  {
    hide Power, HalfTurn, Cong, Brv, Exp, Eval, LeafRho, Forward, Points, Compatible, Zeta;
    SizeIsProduct(1, n);
    var z := Zeta(root, Pow2(n - 1));
    ForwardIsEval(a, n, 1, -1, z, q, i);
    PointIs(n, 1, -1, z, i);
    LeafPower(root, n, i, q);
    var x, y := LeafRho(1, n, i, z), Power(root, 2 * Brv(i, n) + 1);
    EvalCong(a, x, y, q);
    CongTrans(Forward(a, 1, n, 1, z)[i], Eval(a, x), Eval(a, y), q);
  }

  // ------------------------------------------------------------ ML-DSA: values

  /** Section 7.5 of FIPS 204: entry i of the transform is the value at 1753^(2 brv(i) + 1). */
  lemma HatIsEval(a: seq<int>, i: nat)
    requires |a| == 256 && i < 256
    ensures Cong(Hat(a)[i], Eval(a, Power(1753, 2 * Brv(i, 8) + 1)), Q)
  {
    hide Power, HalfTurn, Cong, Brv, Exp, Eval, Forward, Compatible, Zeta, Reciprocal, Hat;
    var d: nat :| d == 8;
    MlDsaRing.HatIs(a, d);
    assert Pow2(7) == 128;
    RootHalfTurn();
    TreeFacts();
    LeafValue(a, 1753, d, i, Q);
  }

  // ------------------------------------------------------------ ML-KEM: residues

  /** The coefficients at the places 2 i + b. */
  function Part(a: seq<int>, b: nat): (p: seq<int>)
    requires b < 2 && |a| % 2 == 0
    ensures |p| == |a| / 2 && forall i | 0 <= i < |p| :: p[i] == a[2 * i + b]
  {
    seq(|a| / 2, i requires 0 <= i < |a| / 2 => a[2 * i + b])
  }

  /** Blocks of two carry two transforms side by side. */
  lemma {:induction false} ForwardPart(a: seq<int>, d: nat, k: nat, z: nat -> int, b: nat)
    requires |a| == Size(2, d) && b < 2
    ensures |a| % 2 == 0 && |a| / 2 == Size(1, d)
    ensures Part(Forward(a, 2, d, k, z), b) == Forward(Part(a, b), 1, d, k, z)
    decreases d
  {
    hide Part, Lower, Upper;
    SizeHalf(d);
    if d > 0 {
      SizeHalf(d - 1);
      var l, u := Lower(a, z(k)), Upper(a, z(k));
      ForwardPart(l, d - 1, 2 * k, z, b);
      ForwardPart(u, d - 1, 2 * k + 1, z, b);
      PartOfHalves(a, z(k), b, Size(1, d - 1));
      PartAppend(Forward(l, 2, d - 1, 2 * k, z), Forward(u, 2, d - 1, 2 * k + 1, z), b);
    }
  }

  lemma {:induction false} SizeHalf(d: nat)
    ensures Size(2, d) == 2 * Size(1, d)
  {
    if d > 0 { SizeHalf(d - 1); }
  }

  lemma PartOfHalves(a: seq<int>, s: int, b: nat, h: nat)
    requires |a| == 4 * h && b < 2
    ensures Part(Lower(a, s), b) == Lower(Part(a, b), s) && Part(Upper(a, s), b) == Upper(Part(a, b), s)
  {
    forall i | 0 <= i < h
      ensures Part(Lower(a, s), b)[i] == Lower(Part(a, b), s)[i] && Part(Upper(a, s), b)[i] == Upper(Part(a, b), s)[i]
    {
      HalfEntry(a, s, b, i, h);
    }
  }

  lemma HalfEntry(a: seq<int>, s: int, b: nat, i: nat, h: nat)
    requires |a| == 4 * h && b < 2 && i < h
    ensures Part(Lower(a, s), b)[i] == Lower(Part(a, b), s)[i] && Part(Upper(a, s), b)[i] == Upper(Part(a, b), s)[i]
  {
    hide Part, Lower, Upper;
    var j := 2 * i + b;
    EvenIndex(i, b, h);
    LowerUpperAt(a, s, j, 2 * h);
    LowerUpperAt(Part(a, b), s, i, h);
    PartEntry(a, b, i, j);
    PartEntry(a, b, i + h, j + 2 * h);
    PartEntry(Lower(a, s), b, i, j);
    PartEntry(Upper(a, s), b, i, j);
  }

  lemma EvenIndex(i: nat, b: nat, h: nat)
    requires b < 2 && i < h
    ensures 2 * (i + h) + b == 2 * i + b + 2 * h && 2 * i + b < 2 * h
  {
  }

  lemma PartEntry(a: seq<int>, b: nat, i: nat, j: nat)
    requires b < 2 && |a| % 2 == 0 && i < |a| / 2 && j == 2 * i + b
    ensures j < |a| && Part(a, b)[i] == a[j]
  {
  }

  lemma LowerUpperAt(a: seq<int>, s: int, i: nat, h: nat)
    requires |a| == 2 * h && i < h
    ensures Lower(a, s)[i] == a[i] + s * a[i + h] && Upper(a, s)[i] == a[i] - s * a[i + h]
  {
  }

  lemma PartAppend(x: seq<int>, y: seq<int>, b: nat)
    requires |x| % 2 == 0 && |y| % 2 == 0 && b < 2
    ensures Part(x + y, b) == Part(x, b) + Part(y, b)
  {
    forall i | 0 <= i < |x| / 2 + |y| / 2 ensures Part(x + y, b)[i] == (Part(x, b) + Part(y, b))[i] {
      if i >= |x| / 2 { assert (x + y)[2 * i + b] == y[2 * (i - |x| / 2) + b]; }
    }
  }

  /** Section 4.3 of FIPS 203: pair i of the transform is the residue modulo X^2 - 17^(2 brv(i) + 1). */
  lemma KHatIsResidue(a: seq<int>, i: nat)
    requires |a| == 256 && i < 128
    ensures Cong(KHat(a)[2 * i], Eval(Part(a, 0), Power(17, 2 * Brv(i, 7) + 1)), KQ)
    ensures Cong(KHat(a)[2 * i + 1], Eval(Part(a, 1), Power(17, 2 * Brv(i, 7) + 1)), KQ)
  {
    hide Power, Cong, Brv, Eval, KHat, Part;
    PartResidue(a, i, 0);
    PartResidue(a, i, 1);
  }

  lemma PartResidue(a: seq<int>, i: nat, b: nat)
    requires |a| == 256 && i < 128 && b < 2
    ensures Cong(KHat(a)[2 * i + b], Eval(Part(a, b), Power(17, 2 * Brv(i, 7) + 1)), KQ)
  {
    hide Power, HalfTurn, Cong, Brv, Exp, Eval, Forward, Compatible, Zeta, Reciprocal, KHat;
    var d: nat :| d == 7;
    KHatIs(a, d);
    SizeHalf(d);
    assert Pow2(6) == 64;
    KRootHalfTurn();
    KTreeFacts();
    ForwardPart(a, d, 1, KZ(), b);
    assert Part(KHat(a), b)[i] == KHat(a)[2 * i + b];
    LeafValue(Part(a, b), 17, d, i, KQ);
  }
}
