/** Products modulo X^n - rho through the transform tree, whatever the size of its leaves: each
    split is a ring homomorphism, so the transform of a product is the leafwise product. */
module TreeProduct {
  import opened ModArith
  import opened NttTree
  import opened NegacyclicRing

  function Nil(n: nat): (r: seq<int>)
    ensures |r| == n && forall i | 0 <= i < n :: r[i] == 0
  {
    seq(n, _ => 0)
  }

  /** X b modulo X^n - rho. */
  function Shift(b: seq<int>, rho: int): (r: seq<int>)
    requires b != []
    ensures |r| == |b| && r[0] == rho * b[|b| - 1] && forall i | 1 <= i < |b| :: r[i] == b[i - 1]
  {
    [rho * b[|b| - 1]] + b[..|b| - 1]
  }

  /** a b modulo X^n - rho, by Horner's rule on a. */
  function Mul(a: seq<int>, b: seq<int>, rho: int): (r: seq<int>)
    requires b != []
    ensures |r| == |b|
  {
    if a == [] then Nil(|b|) else Plus(Scale(a[0], b), Shift(Mul(a[1..], b, rho), rho))
  }

  // ------------------------------------------------------------ linearity

  lemma ShiftPlus(a: seq<int>, b: seq<int>, rho: int)
    requires |a| == |b| > 0
    ensures Shift(Plus(a, b), rho) == Plus(Shift(a, rho), Shift(b, rho))
  {
    Distribute(rho, a[|a| - 1], b[|b| - 1]);
  }

  lemma ShiftScale(s: int, a: seq<int>, rho: int)
    requires a != []
    ensures Shift(Scale(s, a), rho) == Scale(s, Shift(a, rho))
  {
    assert rho * (s * a[|a| - 1]) == s * (rho * a[|a| - 1]);
  }

  lemma PlusAssoc(a: seq<int>, b: seq<int>, c: seq<int>, e: seq<int>)
    requires |a| == |b| == |c| == |e|
    ensures Plus(Plus(a, b), Plus(c, e)) == Plus(Plus(a, c), Plus(b, e))
  {
  }

  lemma ScaleSum(s: int, t: int, b: seq<int>)
    ensures Scale(s + t, b) == Plus(Scale(s, b), Scale(t, b))
  {
    forall i | 0 <= i < |b| ensures (s + t) * b[i] == s * b[i] + t * b[i] { }
  }

  lemma ScalePlusSeq(s: int, a: seq<int>, b: seq<int>)
    requires |a| == |b|
    ensures Scale(s, Plus(a, b)) == Plus(Scale(s, a), Scale(s, b))
  {
    forall i | 0 <= i < |a|
      ensures Scale(s, Plus(a, b))[i] == Plus(Scale(s, a), Scale(s, b))[i]
    {
      Distribute(s, a[i], b[i]);
    }
  }

  lemma {:induction false} MulPlus(a: seq<int>, a': seq<int>, b: seq<int>, rho: int)
    requires |a| == |a'| && b != []
    ensures Mul(Plus(a, a'), b, rho) == Plus(Mul(a, b, rho), Mul(a', b, rho))
    decreases |a|
  {
    hide Plus, Scale, Shift;
    if a != [] {
      MulPlus(a[1..], a'[1..], b, rho);
      PlusTail(a, a');
      var m, m' := Mul(a[1..], b, rho), Mul(a'[1..], b, rho);
      ShiftPlus(m, m', rho);
      ScaleSum(a[0], a'[0], b);
      PlusAssoc(Scale(a[0], b), Scale(a'[0], b), Shift(m, rho), Shift(m', rho));
    } else {
      NilPlus(|b|);
    }
  }

  lemma PlusTail(a: seq<int>, b: seq<int>)
    requires |a| == |b| > 0
    ensures Plus(a, b) != [] && Plus(a, b)[1..] == Plus(a[1..], b[1..]) && Plus(a, b)[0] == a[0] + b[0]
  {
  }

  lemma NilPlus(n: nat)
    ensures Plus(Nil(n), Nil(n)) == Nil(n)
  {
  }

  lemma {:induction false} MulScale(s: int, a: seq<int>, b: seq<int>, rho: int)
    requires b != []
    ensures Mul(Scale(s, a), b, rho) == Scale(s, Mul(a, b, rho))
    decreases |a|
  {
    hide Plus, Scale, Shift;
    if a != [] {
      MulScale(s, a[1..], b, rho);
      ScaleTail(s, a);
      var m := Mul(a[1..], b, rho);
      ShiftScale(s, m, rho);
      ScaleScale(s, a[0], b);
      ScalePlusSeq(s, Scale(a[0], b), Shift(m, rho));
    } else {
      ScaleNil(s, |b|);
    }
  }

  lemma ScaleTail(s: int, a: seq<int>)
    requires a != []
    ensures Scale(s, a) != [] && Scale(s, a)[1..] == Scale(s, a[1..]) && Scale(s, a)[0] == s * a[0]
  {
  }

  lemma ScaleNil(s: int, n: nat)
    ensures Scale(s, []) == [] && Scale(s, Nil(n)) == Nil(n)
  {
  }

  lemma ShiftCong(a: seq<int>, b: seq<int>, rho: int, q: int)
    requires 0 < q && a != [] && CongSeq(a, b, q)
    ensures CongSeq(Shift(a, rho), Shift(b, rho), q)
  {
    CongScale(rho, a[|a| - 1], b[|b| - 1], q);
  }

  // ------------------------------------------------------------ the projection modulo X^h - s

  function Proj(a: seq<int>, s: int): (r: seq<int>)
    requires |a| % 2 == 0
    ensures |r| == |a| / 2 && forall i | 0 <= i < |r| :: r[i] == a[i] + s * a[i + |a| / 2]
  {
    Lower(a, s)
  }

  lemma UpperIsProj(a: seq<int>, s: int)
    requires |a| % 2 == 0
    ensures Upper(a, s) == Proj(a, -s)
  {
    forall i | 0 <= i < |a| / 2 ensures a[i] - s * a[i + |a| / 2] == a[i] + (-s) * a[i + |a| / 2] { }
  }

  lemma ProjPlus(a: seq<int>, b: seq<int>, s: int)
    requires |a| == |b| && |a| % 2 == 0
    ensures Proj(Plus(a, b), s) == Plus(Proj(a, s), Proj(b, s))
  {
    LowerPlus(a, b, s);
  }

  lemma ProjScale(c: int, a: seq<int>, s: int)
    requires |a| % 2 == 0
    ensures Proj(Scale(c, a), s) == Scale(c, Proj(a, s))
  {
    LowerScale(c, a, s);
  }

  /** Multiplying by X commutes with the projection. */
  lemma ProjShift(b: seq<int>, rho: int, s: int, q: int)
    requires 0 < q && |b| % 2 == 0 && b != [] && Cong(s * s, rho, q)
    ensures CongSeq(Proj(Shift(b, rho), s), Shift(Proj(b, s), s), q)
  {
    var h := |b| / 2;
    var x, y := Proj(Shift(b, rho), s), Shift(Proj(b, s), s);
    forall i | 0 <= i < h ensures Cong(x[i], y[i], q) {
      if i > 0 {
        CongRefl(x[i], q);
      } else {
        assert x[0] == rho * b[2 * h - 1] + s * b[h - 1];
        assert y[0] == s * (b[h - 1] + s * b[2 * h - 1]);
        WrapScalar(b[h - 1], b[2 * h - 1], rho, s, q);
      }
    }
  }

  lemma WrapScalar(u: int, v: int, rho: int, s: int, q: int)
    requires 0 < q && Cong(s * s, rho, q)
    ensures Cong(rho * v + s * u, s * (u + s * v), q)
  {
    CongScale(v, s * s, rho, q);
    CongSym(v * (s * s), v * rho, q);
    CongRefl(s * u, q);
    CongAdd(v * rho, v * (s * s), s * u, s * u, q);
    assert s * (u + s * v) == v * (s * s) + s * u;
  }

  /** The projection is multiplicative in its second argument. */
  lemma {:induction false} ProjMul(a: seq<int>, b: seq<int>, rho: int, s: int, q: int)
    requires 0 < q && |b| % 2 == 0 && b != [] && Cong(s * s, rho, q)
    ensures CongSeq(Proj(Mul(a, b, rho), s), Mul(a, Proj(b, s), s), q)
    decreases |a|
  {
    hide Plus, Scale, Shift, CongSeq, Proj;
    if a == [] {
      ProjNil(|b|, s);
      CongSeqRefl(Nil(|b| / 2), q);
    } else {
      var m, n := Mul(a[1..], b, rho), Mul(a[1..], Proj(b, s), s);
      ProjMul(a[1..], b, rho, s, q);
      ProjPlus(Scale(a[0], b), Shift(m, rho), s);
      ProjScale(a[0], b, s);
      ProjShift(m, rho, s, q);
      ShiftCong(Proj(m, s), n, s, q);
      CongSeqTrans(Proj(Shift(m, rho), s), Shift(Proj(m, s), s), Shift(n, s), q);
      CongSeqRefl(Scale(a[0], Proj(b, s)), q);
      CongSeqPlus(Scale(a[0], Proj(b, s)), Scale(a[0], Proj(b, s)), Proj(Shift(m, rho), s), Shift(n, s), q);
    }
  }

  lemma ProjNil(n: nat, s: int)
    requires n % 2 == 0
    ensures Proj(Nil(n), s) == Nil(n / 2)
  {
  }

  // ------------------------------------------------------------ folding the first argument

  function ShiftBy(b: seq<int>, rho: int, n: nat): (r: seq<int>)
    requires b != []
    ensures |r| == |b|
    decreases n
  {
    if n == 0 then b else Shift(ShiftBy(b, rho, n - 1), rho)
  }

  /** X^n b for n up to the length: the top n coefficients come round times rho. */
  lemma {:induction false} ShiftByIs(b: seq<int>, rho: int, n: nat)
    requires b != [] && n <= |b|
    ensures ShiftBy(b, rho, n) == Scale(rho, b[|b| - n..]) + b[..|b| - n]
    decreases n
  {
    if n > 0 {
      ShiftByIs(b, rho, n - 1);
      var p := ShiftBy(b, rho, n - 1);
      assert p[|b| - 1] == b[|b| - n];
      assert Scale(rho, b[|b| - n..]) == [rho * b[|b| - n]] + Scale(rho, b[|b| - (n - 1)..]);
      assert p[..|b| - 1] == Scale(rho, b[|b| - (n - 1)..]) + b[..|b| - n];
    } else {
      assert b[|b|..] == [] && b[..|b|] == b;
    }
  }

  lemma {:induction false} ShiftBySum(a: seq<int>, b: seq<int>, rho: int, n: nat)
    requires |a| == |b| > 0
    ensures ShiftBy(Plus(a, b), rho, n) == Plus(ShiftBy(a, rho, n), ShiftBy(b, rho, n))
    decreases n
  {
    hide Plus, Shift;
    if n > 0 {
      ShiftBySum(a, b, rho, n - 1);
      ShiftPlus(ShiftBy(a, rho, n - 1), ShiftBy(b, rho, n - 1), rho);
    }
  }

  lemma {:induction false} ShiftByNext(b: seq<int>, rho: int, n: nat)
    requires b != []
    ensures ShiftBy(b, rho, n + 1) == ShiftBy(Shift(b, rho), rho, n)
    decreases n
  {
    if n > 0 { ShiftByNext(b, rho, n - 1); }
  }

  lemma {:induction false} MulAppend(a: seq<int>, a': seq<int>, b: seq<int>, rho: int)
    requires b != []
    ensures Mul(a + a', b, rho) == Plus(Mul(a, b, rho), ShiftBy(Mul(a', b, rho), rho, |a|))
    decreases |a|
  {
    hide Plus, Scale, Shift;
    if a == [] {
      assert a + a' == a';
      NilIsZero(Mul(a', b, rho));
    } else {
      assert (a + a')[0] == a[0] && (a + a')[1..] == a[1..] + a';
      MulAppend(a[1..], a', b, rho);
      var m, n := Mul(a[1..], b, rho), ShiftBy(Mul(a', b, rho), rho, |a| - 1);
      ShiftPlus(m, n, rho);
      PlusShift3(Scale(a[0], b), Shift(m, rho), Shift(n, rho));
    }
  }

  lemma NilIsZero(m: seq<int>)
    ensures Plus(Nil(|m|), m) == m
  {
  }

  lemma PlusShift3(a: seq<int>, b: seq<int>, c: seq<int>)
    requires |a| == |b| == |c|
    ensures Plus(a, Plus(b, c)) == Plus(Plus(a, b), c)
  {
  }

  /** Modulo X^h - s only the projection of the first argument matters. */
  lemma FoldMul(a: seq<int>, c: seq<int>, s: int)
    requires |a| == 2 * |c| && c != []
    ensures Mul(a, c, s) == Mul(Proj(a, s), c, s)
  {
    hide Plus, Scale, Shift, Mul, ShiftBy;
    var h := |c|;
    var lo, hi := a[..h], a[h..];
    assert a == lo + hi;
    MulAppend(lo, hi, c, s);
    WholeShift(Mul(hi, c, s), s);
    MulScale(s, hi, c, s);
    MulPlus(lo, Scale(s, hi), c, s);
    HalvesAsSums(a, s);
  }

  lemma WholeShift(m: seq<int>, s: int)
    requires m != []
    ensures ShiftBy(m, s, |m|) == Scale(s, m)
  {
    ShiftByIs(m, s, |m|);
    assert m[|m| - |m|..] == m && m[..|m| - |m|] == [];
  }

  // ------------------------------------------------------------ the tree

  /** Leafwise products, the leaves being taken modulo X^base - rho. */
  function TreeMul(fa: seq<int>, fb: seq<int>, base: nat, d: nat, k: nat, rho: int, z: nat -> int): (r: seq<int>)
    requires 0 < base && |fa| == |fb| == Size(base, d)
    ensures |r| == |fa|
    decreases d
  {
    if d == 0 then Mul(fa, fb, rho)
    else
      var h := Size(base, d - 1);
      TreeMul(fa[..h], fb[..h], base, d - 1, 2 * k, z(k), z) +
        TreeMul(fa[h..], fb[h..], base, d - 1, 2 * k + 1, -z(k), z)
  }

  lemma SizeGrows(base: nat, d: nat)
    requires 0 < base
    ensures 0 < Size(base, d)
    decreases d
  {
    if d > 0 { SizeGrows(base, d - 1); }
  }

  /** One split of a product is the product of the splits. */
  lemma SplitMul(a: seq<int>, b: seq<int>, half: seq<int>, rho: int, s: int, q: int)
    requires 0 < q && |a| == |b| == 2 * |half| && half != [] && half == Proj(b, s) && Cong(s * s, rho, q)
    ensures CongSeq(Proj(Mul(a, b, rho), s), Mul(Proj(a, s), half, s), q)
  {
    hide Proj, Mul, CongSeq;
    ProjMul(a, b, rho, s, q);
    FoldMul(a, half, s);
  }

  /** The transform of a product modulo X^n - rho is the leafwise product of the transforms. */
  lemma {:induction false} ForwardOfMul(a: seq<int>, b: seq<int>, base: nat, d: nat, k: nat, rho: int, z: nat -> int,
      q: int)
    requires 0 < q && 0 < base && |a| == |b| == Size(base, d) && Compatible(d, k, rho, z, q)
    ensures b != [] && CongSeq(Forward(Mul(a, b, rho), base, d, k, z),
      TreeMul(Forward(a, base, d, k, z), Forward(b, base, d, k, z), base, d, k, rho, z), q)
    decreases d, 0
  {
    hide Mul, CongSeq, Lower, Upper, Cong, TreeMul;
    SizeGrows(base, d);
    if d == 0 {
      LeafMul(a, b, base, k, rho, z);
      CongSeqRefl(Mul(a, b, rho), q);
    } else {
      SizeGrows(base, d - 1);
      var s, h := z(k), Size(base, d - 1);
      ForwardOfHalf(a, b, Lower(a, s), Lower(b, s), Lower(Mul(a, b, rho), s), base, d - 1, 2 * k, rho, s, z, q);
      UpperIsProj(a, s);
      UpperIsProj(b, s);
      UpperIsProj(Mul(a, b, rho), s);
      assert (-s) * (-s) == s * s;
      ForwardOfHalf(a, b, Upper(a, s), Upper(b, s), Upper(Mul(a, b, rho), s), base, d - 1, 2 * k + 1, rho, -s, z, q);
      var m := Mul(a, b, rho);
      JoinHalves(Forward(Lower(m, s), base, d - 1, 2 * k, z), Forward(Upper(m, s), base, d - 1, 2 * k + 1, z),
        Forward(Lower(a, s), base, d - 1, 2 * k, z), Forward(Upper(a, s), base, d - 1, 2 * k + 1, z),
        Forward(Lower(b, s), base, d - 1, 2 * k, z), Forward(Upper(b, s), base, d - 1, 2 * k + 1, z), base, d, k, rho,
          z, q);
    }
  }

  lemma LeafMul(a: seq<int>, b: seq<int>, base: nat, k: nat, rho: int, z: nat -> int)
    requires 0 < base && |a| == |b| == Size(base, 0)
    ensures TreeMul(a, b, base, 0, k, rho, z) == Mul(a, b, rho)
  {
  }

  lemma ForwardOfHalf(a: seq<int>, b: seq<int>, pa: seq<int>, pb: seq<int>, pm: seq<int>, base: nat, d: nat, k: nat,
      rho: int, s: int, z: nat -> int, q: int)
    requires 0 < q && 0 < base && |a| == |b| == 2 * |pa| && Compatible(d, k, s, z, q) && b != []
    requires |pa| == |pb| == |pm| == Size(base, d) && pb != [] && Cong(s * s, rho, q)
    requires pa == Proj(a, s) && pb == Proj(b, s) && pm == Proj(Mul(a, b, rho), s)
    ensures CongSeq(Forward(pm, base, d, k, z),
      TreeMul(Forward(pa, base, d, k, z), Forward(pb, base, d, k, z), base, d, k, s, z), q)
    decreases d, 1
  {
    hide Mul, CongSeq, Proj, Forward, TreeMul, Compatible, Size, Cong;
    SplitMul(a, b, pb, rho, s, q);
    ForwardOfMul(pa, pb, base, d, k, s, z, q);
    Bridge(pm, Mul(pa, pb, s), TreeMul(Forward(pa, base, d, k, z), Forward(pb, base, d, k, z), base, d, k, s, z),
      base, d, k, z, q);
  }

  lemma Bridge(x: seq<int>, y: seq<int>, t: seq<int>, base: nat, d: nat, k: nat, z: nat -> int, q: int)
    requires 0 < q && |x| == |y| == Size(base, d) && CongSeq(x, y, q) && CongSeq(Forward(y, base, d, k, z), t, q)
    ensures CongSeq(Forward(x, base, d, k, z), t, q)
  {
    hide CongSeq, Forward, Size;
    ForwardCong(x, y, base, d, k, z, q);
    CongSeqTrans(Forward(x, base, d, k, z), Forward(y, base, d, k, z), t, q);
  }

  lemma JoinHalves(fm: seq<int>, gm: seq<int>, fa: seq<int>, ga: seq<int>, fb: seq<int>, gb: seq<int>, base: nat,
      d: nat, k: nat, rho: int, z: nat -> int, q: int)
    requires 0 < q && 0 < base && 0 < d && |fa| == |ga| == |fb| == |gb| == Size(base, d - 1)
    requires CongSeq(fm, TreeMul(fa, fb, base, d - 1, 2 * k, z(k), z), q)
    requires CongSeq(gm, TreeMul(ga, gb, base, d - 1, 2 * k + 1, -z(k), z), q)
    ensures CongSeq(fm + gm, TreeMul(fa + ga, fb + gb, base, d, k, rho, z), q)
  {
    hide CongSeq;
    var h := Size(base, d - 1);
    assert (fa + ga)[..h] == fa && (fa + ga)[h..] == ga;
    assert (fb + gb)[..h] == fb && (fb + gb)[h..] == gb;
    CongSeqAppend(fm, TreeMul(fa, fb, base, d - 1, 2 * k, z(k), z), gm,
      TreeMul(ga, gb, base, d - 1, 2 * k + 1, -z(k), z), q);
  }

  // ------------------------------------------------------------ the schoolbook product

  lemma {:induction false} ShiftByNeg(b: seq<int>, n: nat)
    requires b != [] && n <= |b|
    ensures ShiftBy(b, -1, n) == ShiftNeg(b, n)
  {
    ShiftByIs(b, -1, n);
  }

  /** The first m terms, and the rest by Horner's rule. */
  lemma {:induction false} MulByTerms(a: seq<int>, b: seq<int>, m: nat)
    requires |a| == |b| > 0 && m <= |a|
    ensures Mul(a, b, -1) == Plus(PartialProduct(a, b, m), ShiftBy(Mul(a[m..], b, -1), -1, m))
    decreases m
  {
    hide Plus, Scale, Shift, ShiftNeg;
    if m == 0 {
      assert a[0..] == a;
      PartialNone(a, b);
      NilIsZero(Mul(a, b, -1));
    } else {
      MulByTerms(a, b, m - 1);
      var t := Mul(a[m..], b, -1);
      assert a[m - 1..][1..] == a[m..] && a[m - 1..][0] == a[m - 1];
      ShiftBySum(Scale(a[m - 1], b), Shift(t, -1), -1, m - 1);
      ShiftByNext(t, -1, m - 1);
      ShiftByScale(a[m - 1], b, -1, m - 1);
      ShiftByNeg(b, m - 1);
      PartialNext(a, b, m);
      PlusShift3(PartialProduct(a, b, m - 1), Scale(a[m - 1], ShiftNeg(b, m - 1)), ShiftBy(t, -1, m));
    }
  }

  lemma PartialNone(a: seq<int>, b: seq<int>)
    requires |a| == |b|
    ensures PartialProduct(a, b, 0) == Nil(|b|)
  {
  }

  lemma {:induction false} ShiftByScale(s: int, a: seq<int>, rho: int, n: nat)
    requires a != []
    ensures ShiftBy(Scale(s, a), rho, n) == Scale(s, ShiftBy(a, rho, n))
    decreases n
  {
    hide Scale, Shift;
    if n > 0 {
      ShiftByScale(s, a, rho, n - 1);
      ShiftScale(s, ShiftBy(a, rho, n - 1), rho);
    }
  }

  lemma PartialNext(a: seq<int>, b: seq<int>, m: nat)
    requires |a| == |b| && 0 < m <= |a|
    ensures PartialProduct(a, b, m) == Plus(PartialProduct(a, b, m - 1), Scale(a[m - 1], ShiftNeg(b, m - 1)))
  {
  }

  /** Modulo X^n + 1 this is the schoolbook negacyclic product. */
  lemma MulIsProduct(a: seq<int>, b: seq<int>)
    requires |a| == |b| > 0
    ensures Mul(a, b, -1) == Product(a, b)
  {
    MulByTerms(a, b, |a|);
    assert a[|a|..] == [];
    hide Plus;
    ShiftNil(|b|, |a|);
    PlusNil(PartialProduct(a, b, |a|));
  }

  lemma {:induction false} ShiftNil(n: nat, m: nat)
    requires 0 < n
    ensures ShiftBy(Nil(n), -1, m) == Nil(n)
    decreases m
  {
    if m > 0 {
      ShiftNil(n, m - 1);
      assert Shift(Nil(n), -1) == Nil(n);
    }
  }

  lemma PlusNil(m: seq<int>)
    ensures Plus(m, Nil(|m|)) == m
  {
  }
}
