/** The polynomial and vector loops of the ML-DSA code: what each leaves, mod q, and the range
    that keeps the next one inside int32. */
module MlDsaVectors {
  import opened ModArith
  import opened MlDsaModulus
  import opened NttTree
  import opened NegacyclicRing
  import opened NttLoop
  import opened MlDsaArith
  import opened MlDsaNtt
  import opened MlDsaRing
  import opened MlDsaRounding
  import opened MlDsaPacking
  import opened MlDsaScheme

  /** The range of reduce32, and so of every reduced polynomial. */
  const REDUCED: int := 6283009
  /** The range of the inverse transform. */
  const INVERTED: int := 4211179

  // ------------------------------------------------------------ one polynomial

  method PolyNtt(a: Poly, z: seq<int>) returns (r: Poly)
    requires ZetaTable(z) && Within(a, Q)
    ensures Same(r, Hat(a)) && Within(r, 8 * Q)
  {
    hide CongSeq, Hat, ZetaTable;
    var t := new int32[256](i requires 0 <= i < 256 && Within(a, Q) => a[i]);
    assert t[..] == a;
    Ntt(t, z);
    r := t[..];
  }

  method PolyInvNtt(a: Poly, z: seq<int>) returns (r: Poly)
    requires ZetaTable(z) && Within(a, Q)
    ensures Same(r, Scale(R, Unhat(a))) && Within(r, INVERTED)
  {
    hide CongSeq, Unhat, ZetaTable;
    var t := new int32[256](i requires 0 <= i < 256 && Within(a, Q) => a[i]);
    assert t[..] == a;
    InvNttToMont(t, z);
    r := t[..];
  }

  lemma MontgomeryProduct(a: int, b: int)
    requires -8 * Q <= a <= 8 * Q && -8 * Q <= b <= 8 * Q
    ensures var r := MontgomeryReduce(a * b);
      -Q <= r <= Q && Cong(r, RINV * (a * b), Q)
  {
    hide MontgomeryReduce, Cong;
    ProductRange(a, b, 8 * Q, 8 * Q);
    MontgomeryBound(a * b, 1046600);
    MontgomeryFacts(a * b);
  }

  method PolyPointwise(a: Poly, b: Poly) returns (c: Poly)
    requires Within(a, 8 * Q) && Within(b, 8 * Q)
    ensures Same(c, Scale(RINV, Pointwise(a, b))) && Within(c, Q)
  {
    hide Cong, MontgomeryReduce;
    var s: seq<int> := [];
    for i := 0 to 256
      invariant |s| == i
      invariant forall k | 0 <= k < i :: -Q <= s[k] <= Q && Cong(s[k], RINV * (a[k] * b[k]), Q)
    {
      MontgomeryProduct(a[i], b[i]);
      s := s + [MontgomeryReduce(a[i] * b[i])];
    }
    c := s;
  }

  method PolyAdd(a: Poly, b: Poly) returns (c: Poly)
    requires forall i | 0 <= i < 256 :: -0x8000_0000 <= a[i] + b[i] < 0x8000_0000
    ensures c == Plus(a, b)
  {
    var s: seq<int32> := [];
    for i := 0 to 256
      invariant |s| == i && forall k | 0 <= k < i :: s[k] == a[k] + b[k]
    {
      s := s + [a[i] + b[i]];
    }
    c := s;
  }

  method PolySub(a: Poly, b: Poly) returns (c: Poly)
    requires forall i | 0 <= i < 256 :: -0x8000_0000 <= a[i] - b[i] < 0x8000_0000
    ensures c == Minus(a, b)
  {
    var s: seq<int32> := [];
    for i := 0 to 256
      invariant |s| == i && forall k | 0 <= k < i :: s[k] == a[k] - b[k]
    {
      s := s + [a[i] - b[i]];
    }
    c := s;
  }

  method PolyReduce(a: Poly) returns (r: Poly)
    requires forall i | 0 <= i < 256 :: -0x8000_0000 <= a[i] <= 0x8000_0000 - 4194304 - 1
    ensures Same(r, a) && Within(r, REDUCED)
  {
    hide Cong, Reduce32;
    var s: seq<int> := [];
    for i := 0 to 256
      invariant |s| == i && forall k | 0 <= k < i :: -REDUCED <= s[k] <= REDUCED && Cong(s[k], a[k], Q)
    {
      Reduce32Contract(a[i]);
      s := s + [Reduce32(a[i])];
    }
    r := s;
  }

  method PolyCaddq(a: Poly) returns (r: Poly)
    requires Within(a, Q - 1)
    ensures r == Canon(a)
  {
    var s: seq<int> := [];
    for i := 0 to 256
      invariant |s| == i && forall k | 0 <= k < i :: s[k] == a[k] % Q
    {
      CaddqContract(a[i]);
      s := s + [Caddq(a[i])];
    }
    r := s;
  }

  /** Set when some coefficient reaches the bound; every coefficient is examined. */
  method PolyChkNorm(a: Poly, B: int) returns (rejected: bool)
    requires forall i | 0 <= i < 256 :: -0x4000_0000 < a[i] < 0x4000_0000
    requires 0 < B
    ensures B <= (Q - 1) / 8 ==> (!rejected <==> forall i | 0 <= i < 256 :: -B < a[i] < B)
    ensures B > (Q - 1) / 8 ==> rejected
  {
    if B > (Q - 1) / 8 { return true; }
    rejected := false;
    for i := 0 to 256
      invariant !rejected <==> forall k | 0 <= k < i :: -B < a[k] < B
    {
      var t: int32 := if a[i] < 0 then -1 else 0;
      t := a[i] - (if t < 0 then 2 * a[i] else 0);
      rejected := rejected || B - 1 - t < 0;
    }
  }

  // ------------------------------------------------------------ vectors

  ghost predicate VecWithin(v: Vec, b: int) { forall i | 0 <= i < |v| :: Within(v[i], b) }

  /** v holds, mod q, the transforms of s. */
  ghost predicate Transformed(v: Vec, s: Vec) {
    |v| == |s| && forall i | 0 <= i < |v| :: Same(v[i], Hat(s[i])) && Within(v[i], 8 * Q)
  }

  ghost predicate VecSame(v: Vec, s: Vec) { |v| == |s| && forall i | 0 <= i < |v| :: Same(v[i], s[i]) }

  method VecNtt(v: Vec, z: seq<int>) returns (r: Vec)
    requires ZetaTable(z) && VecWithin(v, Q)
    ensures Transformed(r, v)
  {
    hide Same, Within, Hat, ZetaTable;
    r := [];
    for i := 0 to |v|
      invariant |r| == i && forall k | 0 <= k < i :: Same(r[k], Hat(v[k])) && Within(r[k], 8 * Q)
    {
      var t := PolyNtt(v[i], z);
      r := r + [t];
    }
  }

  lemma DotNext(row: Vec, y: Vec, n: nat, acc: Poly, t: Poly, yh: Poly)
    requires n < |row| && n < |y| && Same(acc, Scale(RINV, Dot(row, y, n)))
    requires Same(yh, Hat(y[n])) && Same(t, Scale(RINV, Pointwise(row[n], yh)))
    ensures Same(Plus(acc, t), Scale(RINV, Dot(row, y, n + 1)))
  {
    hide Same, Hat, CongSeq, Scale, Pointwise, Plus;
    DotUnfold(row, y, n);
    SameRefl(row[n]);
    SamePointwise(row[n], row[n], yh, Hat(y[n]));
    SameScale(RINV, Pointwise(row[n], yh), Pointwise(row[n], Hat(y[n])));
    SameTrans(t, Scale(RINV, Pointwise(row[n], yh)), Scale(RINV, Pointwise(row[n], Hat(y[n]))));
    SamePlus(acc, Scale(RINV, Dot(row, y, n)), t, Scale(RINV, Pointwise(row[n], Hat(y[n]))));
    ScalePlus(RINV, Dot(row, y, n), Pointwise(row[n], Hat(y[n])));
  }

  lemma DotUnfold(row: Vec, y: Vec, n: nat)
    requires n < |row| && n < |y|
    ensures Dot(row, y, n + 1) == Plus(Dot(row, y, n), Pointwise(row[n], Hat(y[n])))
  {
  }

  lemma DotFirst(row: Vec, y: Vec, t: Poly, yh: Poly)
    requires 0 < |row| && 0 < |y| && Same(yh, Hat(y[0])) && Same(t, Scale(RINV, Pointwise(row[0], yh)))
    ensures Same(t, Scale(RINV, Dot(row, y, 1)))
  {
    ZeroSame();
    hide Same, Hat, CongSeq, Scale, Pointwise;
    assert Dot(row, y, 0) == ZeroPoly();
    DotNext(row, y, 0, ZeroPoly(), t, yh);
    assert Plus(ZeroPoly(), t) == t;
  }

  lemma ZeroSame()
    ensures Same(ZeroPoly(), Scale(RINV, ZeroPoly()))
  {
    assert Scale(RINV, ZeroPoly()) == ZeroPoly();
    SameRefl(ZeroPoly());
  }

  /** One row of the matrix against a transformed vector, in Montgomery form. */
  method RowPointwise(row: Vec, v: Vec, ghost y: Vec) returns (t: Poly)
    requires 0 < |row| == |v| <= 8 && Transformed(v, y) && VecWithin(row, Q)
    ensures Same(t, Scale(RINV, Dot(row, y, |y|))) && Within(t, |row| * Q)
  {
    hide Same, Hat, CongSeq, Scale, Pointwise, Dot, Plus;
    t := PolyPointwise(row[0], v[0]);
    DotFirst(row, y, t, v[0]);
    for j := 1 to |row|
      invariant Same(t, Scale(RINV, Dot(row, y, j))) && Within(t, j * Q)
    {
      var acc := PolyPointwise(row[j], v[j]);
      DotNext(row, y, j, t, acc, v[j]);
      WithinPlus(t, acc, j * Q, Q);
      t := PolyAdd(t, acc);
    }
  }

  lemma WithinPlus(a: Poly, b: Poly, x: int, y: int)
    requires Within(a, x) && Within(b, y) && 0 <= x + y < 0x8000_0000
    ensures Within(Plus(a, b), x + y) && forall i | 0 <= i < 256 :: -0x8000_0000 <= a[i] + b[i] < 0x8000_0000
  {
  }

  lemma WithinMinus(a: Poly, b: Poly, x: int, y: int)
    requires Within(a, x) && Within(b, y) && 0 <= x + y < 0x8000_0000
    ensures Within(Minus(a, b), x + y) && forall i | 0 <= i < 256 :: -0x8000_0000 <= a[i] - b[i] < 0x8000_0000
  {
  }

  method MatrixPointwise(A: Matrix, v: Vec, ghost y: Vec) returns (t: Vec)
    requires 0 < |v| <= 8 && Transformed(v, y) && forall i | 0 <= i < |A| :: |A[i]| == |v| && VecWithin(A[i], Q)
    ensures |t| == |A|
    ensures forall i | 0 <= i < |t| :: Same(t[i], Scale(RINV, Dot(A[i], y, |y|))) && Within(t[i], 8 * Q)
  {
    hide Same, Within, Scale, Dot, VecWithin, Transformed;
    t := [];
    TransformedLength(v, y);
    for i := 0 to |A|
      invariant |t| == i
      invariant forall k | 0 <= k < i :: Same(t[k], Scale(RINV, Dot(A[k], y, |y|))) && Within(t[k], 8 * Q)
    {
      var row := RowPointwise(A[i], v, y);
      WithinWider(row, |A[i]| * Q, 8 * Q);
      t := t + [row];
    }
  }

  lemma TransformedLength(v: Vec, y: Vec)
    requires Transformed(v, y)
    ensures |v| == |y|
  {
  }

  method VecReduce(v: Vec) returns (r: Vec)
    requires VecWithin(v, 100 * Q)
    ensures VecSame(r, v) && VecWithin(r, REDUCED)
  {
    hide Same, Within;
    r := [];
    for i := 0 to |v|
      invariant |r| == i && forall k | 0 <= k < i :: Same(r[k], v[k]) && Within(r[k], REDUCED)
    {
      ReduceReady(v[i]);
      var t := PolyReduce(v[i]);
      r := r + [t];
    }
  }

  lemma ReduceReady(a: Poly)
    requires Within(a, 100 * Q)
    ensures forall i | 0 <= i < 256 :: -0x8000_0000 <= a[i] <= 0x8000_0000 - 4194304 - 1
  {
  }

  method VecInvNtt(v: Vec, z: seq<int>) returns (r: Vec)
    requires ZetaTable(z) && VecWithin(v, Q)
    ensures |r| == |v| && VecWithin(r, INVERTED) && forall i | 0 <= i < |r| :: Same(r[i], Scale(R, Unhat(v[i])))
  {
    hide Same, Within, Unhat, Scale, ZetaTable;
    r := [];
    for i := 0 to |v|
      invariant |r| == i && forall k | 0 <= k < i :: Same(r[k], Scale(R, Unhat(v[k]))) && Within(r[k], INVERTED)
    {
      var t := PolyInvNtt(v[i], z);
      r := r + [t];
    }
  }

  method VecCaddq(v: Vec) returns (r: Vec)
    requires VecWithin(v, Q - 1)
    ensures |r| == |v| && forall i | 0 <= i < |r| :: r[i] == Canon(v[i])
  {
    hide Within, Canon;
    r := [];
    for i := 0 to |v|
      invariant |r| == i && forall k | 0 <= k < i :: r[k] == Canon(v[k])
    {
      var t := PolyCaddq(v[i]);
      r := r + [t];
    }
  }

  lemma VecWider(v: Vec, x: int, y: int)
    requires VecWithin(v, x) && x <= y
    ensures VecWithin(v, y)
  {
    forall i | 0 <= i < |v| ensures Within(v[i], y) { WithinWider(v[i], x, y); }
  }

  /** From a matrix product in Montgomery form to canonical coefficients. */
  lemma CommitRow(t: Poly, u: Poly, x: Poly, s: Poly)
    requires Same(t, Scale(RINV, s)) && Same(u, t) && Same(x, Scale(R, Unhat(u)))
    ensures Same(x, Unhat(s))
  {
    hide Same, Scale, Unhat;
    SameTrans(u, t, Scale(RINV, s));
    MontgomeryCancels(u, s, x);
  }

  /** A y: transform, row products, reduce, back; the result left within the inverse's range. */
  method Product32(A: Matrix, y: Vec, z: seq<int>) returns (w: Vec)
    requires 0 < |y| <= 8 && VecWithin(y, Q) && ZetaTable(z)
    requires forall i | 0 <= i < |A| :: |A[i]| == |y| && VecWithin(A[i], Q)
    ensures |w| == |A| && VecWithin(w, INVERTED) && forall i | 0 <= i < |w| :: Same(w[i], Unhat(Dot(A[i], y, |y|)))
  {
    hide Same, Within, Scale, Unhat, Dot, Transformed, ZetaTable;
    var v := VecNtt(y, z);
    TransformedLength(v, y);
    var t := MatrixPointwise(A, v, y);
    VecWider(t, 8 * Q, 100 * Q);
    var u := VecReduce(t);
    VecWider(u, REDUCED, Q);
    w := VecInvNtt(u, z);
    forall i | 0 <= i < |w| ensures Same(w[i], Unhat(Dot(A[i], y, |y|))) {
      CommitRow(t[i], u[i], w[i], Dot(A[i], y, |y|));
    }
  }

  /** w = A y, canonical. */
  method Commit(A: Matrix, y: Vec, z: seq<int>) returns (w: Vec)
    requires 0 < |y| <= 8 && VecWithin(y, Q) && ZetaTable(z)
    requires forall i | 0 <= i < |A| :: |A[i]| == |y| && VecWithin(A[i], Q)
    ensures w == Apply(A, y)
  {
    hide Same, Within, Unhat, Dot, ZetaTable, Canon;
    var x := Product32(A, y, z);
    VecWider(x, INVERTED, Q - 1);
    w := VecCaddq(x);
    forall i | 0 <= i < |w| ensures w[i] == Apply(A, y)[i] {
      CanonUnique(x[i], Unhat(Dot(A[i], y, |y|)));
    }
  }

  lemma MulRow(ch: Poly, c: Poly, sh: Poly, s: Poly, t: Poly, x: Poly)
    requires Same(ch, Hat(c)) && Same(sh, Hat(s)) && Same(t, Scale(RINV, Pointwise(ch, sh))) &&
      Same(x, Scale(R, Unhat(t)))
    ensures Same(x, Product(c, s))
  {
    hide Same, Scale, Unhat, Hat, Product, Pointwise;
    SamePointwise(ch, Hat(c), sh, Hat(s));
    MontgomeryCancels(t, Pointwise(ch, sh), x);
    UnhatSame(Pointwise(ch, sh), Pointwise(Hat(c), Hat(s)));
    SameTrans(x, Unhat(Pointwise(ch, sh)), Unhat(Pointwise(Hat(c), Hat(s))));
    ProductByTransform(c, s);
    SameTrans(x, Unhat(Pointwise(Hat(c), Hat(s))), Product(c, s));
  }

  /** c times every polynomial of a transformed vector. */
  method TimesChallenge(ch: Poly, sh: Vec, ghost c: Poly, ghost s: Vec, z: seq<int>) returns (r: Vec)
    requires Same(ch, Hat(c)) && Within(ch, 8 * Q) && Transformed(sh, s) && ZetaTable(z)
    ensures VecSame(r, MulVec(c, s)) && VecWithin(r, INVERTED)
  {
    hide Same, Within, Scale, Unhat, Hat, Product, Pointwise, ZetaTable;
    var t: Vec := [];
    for i := 0 to |sh|
      invariant |t| == i
      invariant forall k | 0 <= k < i :: Same(t[k], Scale(RINV, Pointwise(ch, sh[k]))) && Within(t[k], Q)
    {
      var x := PolyPointwise(ch, sh[i]);
      t := t + [x];
    }
    r := VecInvNtt(t, z);
    forall i | 0 <= i < |r| ensures Same(r[i], MulVec(c, s)[i]) { MulRow(ch, c, sh[i], s[i], t[i], r[i]); }
  }

  method VecAdd(a: Vec, b: Vec, ghost x: int, ghost y: int) returns (r: Vec)
    requires |a| == |b| && VecWithin(a, x) && VecWithin(b, y) && 0 <= x + y < 0x8000_0000
    ensures r == AddVec(a, b) && VecWithin(r, x + y)
  {
    hide Within, Plus;
    r := [];
    for i := 0 to |a|
      invariant |r| == i && forall k | 0 <= k < i :: r[k] == Plus(a[k], b[k]) && Within(r[k], x + y)
    {
      WithinPlus(a[i], b[i], x, y);
      var t := PolyAdd(a[i], b[i]);
      r := r + [t];
    }
  }

  method VecSub(a: Vec, b: Vec, ghost x: int, ghost y: int) returns (r: Vec)
    requires |a| == |b| && VecWithin(a, x) && VecWithin(b, y) && 0 <= x + y < 0x8000_0000
    ensures r == SubVec(a, b) && VecWithin(r, x + y)
  {
    hide Within, Minus;
    r := [];
    for i := 0 to |a|
      invariant |r| == i && forall k | 0 <= k < i :: r[k] == Minus(a[k], b[k]) && Within(r[k], x + y)
    {
      WithinMinus(a[i], b[i], x, y);
      var t := PolySub(a[i], b[i]);
      r := r + [t];
    }
  }

  // ------------------------------------------------------------ norms

  /** A reduced coefficient against its centred residue. */
  lemma ReducedNorm(x: int, v: int, B: int)
    requires -REDUCED <= x <= REDUCED && Cong(x, v, Q) && 0 < B <= (Q - 1) / 8
    ensures (-B < x < B) <==> (-B < Centred(v) < B)
    ensures -B < x < B ==> x == Centred(v)
  {
    hide Cong, Centred;
    var c := Centred(v);
    CongSym(c, v, Q);
    CongTrans(x, v, c, Q);
    if -B < x < B || -B < c < B { CongUnique(x, c, Q); }
  }

  lemma ReducedPoly(x: Poly, v: Poly, B: int)
    requires Within(x, REDUCED) && Same(x, v) && 0 < B <= (Q - 1) / 8
    ensures InRange(x, 1 - B, B - 1) <==> InRange(CentredPoly(v), 1 - B, B - 1)
    ensures InRange(x, 1 - B, B - 1) ==> x == CentredPoly(v)
  {
    hide Cong, Centred;
    forall i | 0 <= i < 256
      ensures (-B < x[i] < B) <==> (-B < CentredPoly(v)[i] < B)
      ensures -B < x[i] < B ==> x[i] == CentredPoly(v)[i]
    {
      ReducedNorm(x[i], v[i], B);
    }
  }

  method VecChkNorm(x: Vec, B: int) returns (rejected: bool)
    requires VecWithin(x, Q) && 0 < B <= (Q - 1) / 8
    ensures !rejected <==> Bounded(x, B)
  {
    hide Within;
    for i := 0 to |x|
      invariant forall k | 0 <= k < i :: InRange(x[k], 1 - B, B - 1)
    {
      NormReady(x[i]);
      var bad := PolyChkNorm(x[i], B);
      if bad {
        assert !InRange(x[i], 1 - B, B - 1);
        return true;
      }
    }
    return false;
  }

  lemma NormReady(a: Poly)
    requires Within(a, Q)
    ensures forall i | 0 <= i < 256 :: -0x4000_0000 < a[i] < 0x4000_0000
  {
  }

  /** The norm test of a reduced vector decides the centred one; when it passes, the reduced
      vector is the centred one. */
  lemma NormLift(x: Vec, v: Vec, B: int)
    requires VecWithin(x, REDUCED) && VecSame(x, v) && 0 < B <= (Q - 1) / 8
    ensures Bounded(x, B) <==> Bounded(CentredVec(v), B)
    ensures Bounded(x, B) ==> x == CentredVec(v)
  {
    hide Same, Within, Centred, CentredPoly, InRange;
    forall i | 0 <= i < |x|
      ensures InRange(x[i], 1 - B, B - 1) <==> InRange(CentredVec(v)[i], 1 - B, B - 1)
      ensures InRange(x[i], 1 - B, B - 1) ==> x[i] == CentredVec(v)[i]
    {
      ReducedPoly(x[i], v[i], B);
    }
  }
}
