/** K-PKE decrypts what it encrypted: the residual is the message plus an explicit noise, and the
    message comes back exactly when every coefficient of that noise is in its window. */
module MlKemCorrect {
  import opened ModArith
  import opened Bits
  import opened Radix
  import opened BitCursor
  import opened NttTree
  import opened NegacyclicRing
  import opened TreeProduct
  import opened MlKemArith
  import opened MlKemNtt
  import opened MlKemRing
  import opened MlKemCompress
  import opened MlKemScheme
  import opened MlKemPlain

  // ------------------------------------------------------------ sums of polynomials

  function Sum(v: KVec, n: nat): (r: KPoly)
    requires n <= |v|
    decreases n
  {
    if n == 0 then ZeroK() else Plus(Sum(v, n - 1), v[n - 1])
  }

  function AddAll(v: KVec, w: KVec): (r: KVec)
    requires |v| == |w|
    ensures |r| == |v|
  {
    seq<KPoly>(|v|, i requires 0 <= i < |v| => Plus(v[i], w[i]))
  }

  lemma SumNext(v: KVec, n: nat)
    requires 0 < n <= |v|
    ensures Sum(v, n) == Plus(Sum(v, n - 1), v[n - 1])
  {
  }

  lemma {:induction false} SumAdd(v: KVec, w: KVec, n: nat)
    requires n <= |v| == |w|
    ensures Sum(AddAll(v, w), n) == Plus(Sum(v, n), Sum(w, n))
    decreases n
  {
    if n == 0 {
      assert Plus(ZeroK(), ZeroK()) == ZeroK();
    } else {
      SumAdd(v, w, n - 1);
      PlusSwap(Sum(v, n - 1), Sum(w, n - 1), v[n - 1], w[n - 1]);
    }
  }

  lemma PlusSwap(a: KPoly, b: KPoly, c: KPoly, e: KPoly)
    ensures Plus(Plus(a, b), Plus(c, e)) == Plus(Plus(a, c), Plus(b, e))
  {
  }

  lemma {:induction false} SumSame(v: KVec, w: KVec, n: nat)
    requires n <= |v| && n <= |w| && forall i | 0 <= i < n :: KSame(v[i], w[i])
    ensures KSame(Sum(v, n), Sum(w, n))
    decreases n
  {
    hide KSame, Plus;
    if n == 0 {
      KSameRefl(ZeroK());
    } else {
      SumSame(v, w, n - 1);
      KSamePlus(Sum(v, n - 1), Sum(w, n - 1), v[n - 1], w[n - 1]);
    }
  }

  /** y times every polynomial, on transforms. */
  function Times(v: KVec, y: KPoly): (r: KVec)
    ensures |r| == |v|
  {
    seq<KPoly>(|v|, i requires 0 <= i < |v| => Base(v[i], y))
  }

  lemma {:induction false} BaseOfSum(v: KVec, y: KPoly, n: nat)
    requires n <= |v|
    ensures Base(Sum(v, n), y) == Sum(Times(v, y), n)
    decreases n
  {
    hide Base, Plus;
    if n == 0 {
      BaseOfZero(y);
    } else {
      BaseOfSum(v, y, n - 1);
      BasePlus(Sum(v, n - 1), v[n - 1], y);
    }
  }

  lemma BaseOfZero(y: KPoly)
    ensures Base(ZeroK(), y) == ZeroK()
  {
    hide PairRho;
    forall j | 0 <= j < 256 ensures Base(ZeroK(), y)[j] == 0 { }
    assert Base(ZeroK(), y) == ZeroK();
  }

  lemma PairAssoc(c: int, x0: int, x1: int, y0: int, y1: int, z0: int, z1: int)
    ensures (x0 * y0 + c * (x1 * y1)) * z0 + c * ((x0 * y1 + x1 * y0) * z1) ==
      x0 * (y0 * z0 + c * (y1 * z1)) + c * (x1 * (y0 * z1 + y1 * z0))
    ensures (x0 * y0 + c * (x1 * y1)) * z1 + (x0 * y1 + x1 * y0) * z0 ==
      x0 * (y0 * z1 + y1 * z0) + x1 * (y0 * z0 + c * (y1 * z1))
  {
    ThreeTerms(c, x0, y0, z0, x1, y1, z1);
    ThreeTerms(c, x0, y0, z1, x1, y1, z0);
  }

  /** The products that occur, each in one shape. */
  lemma ThreeTerms(c: int, x0: int, y0: int, z0: int, x1: int, y1: int, z1: int)
    ensures (x0 * y0 + c * (x1 * y1)) * z0 == x0 * (y0 * z0) + c * (x1 * (y1 * z0))
    ensures c * ((x0 * y1 + x1 * y0) * z1) == c * (x0 * (y1 * z1)) + c * (x1 * (y0 * z1))
    ensures (x0 * y1 + x1 * y0) * z1 == x0 * (y1 * z1) + x1 * (y0 * z1)
    ensures x0 * (y0 * z0 + c * (y1 * z1)) == x0 * (y0 * z0) + c * (x0 * (y1 * z1))
    ensures c * (x1 * (y0 * z1 + y1 * z0)) == c * (x1 * (y0 * z1)) + c * (x1 * (y1 * z0))
    ensures x0 * (y0 * z0 + y1 * z1) == x0 * (y0 * z0) + x0 * (y1 * z1)
    ensures x1 * (y1 * z0 + c * (y0 * z1)) == x1 * (y1 * z0) + c * (x1 * (y0 * z1))
  {
    Triple(x0, y0, z0); Triple(x1, y1, z0); Triple(x0, y1, z1); Triple(x1, y0, z1);
    Spread(x0 * y0, c * (x1 * y1), z0);
    Triple(c, x1 * y1, z0);
    Spread(x0 * y1, x1 * y0, z1);
    Gather(c, x0 * (y1 * z1), x1 * (y0 * z1));
    Gather(x0, y0 * z0, c * (y1 * z1));
    Swap(x0, c, y1 * z1);
    Gather(x1, y0 * z1, y1 * z0);
    Gather(c, x1 * (y0 * z1), x1 * (y1 * z0));
    Gather(x0, y0 * z0, y1 * z1);
    Gather(x1, y1 * z0, c * (y0 * z1));
    Swap(x1, c, y0 * z1);
  }

  lemma Triple(x: int, y: int, z: int)
    ensures (x * y) * z == x * (y * z)
  {
  }

  lemma Spread(x: int, y: int, z: int)
    ensures (x + y) * z == x * z + y * z
  {
  }

  lemma Gather(x: int, y: int, z: int)
    ensures x * (y + z) == x * y + x * z
  {
  }

  lemma Swap(x: int, y: int, z: int)
    ensures x * (y * z) == y * (x * z)
  {
  }

  lemma BasePairAt(x: KPoly, y: KPoly, i: nat)
    requires i < 128
    ensures var c := PairRho(i);
      && Base(x, y)[2 * i] == x[2 * i] * y[2 * i] + c * (x[2 * i + 1] * y[2 * i + 1])
      && Base(x, y)[2 * i + 1] == x[2 * i] * y[2 * i + 1] + x[2 * i + 1] * y[2 * i]
  {
    hide PairRho;
    assert (2 * i) / 2 == i && (2 * i + 1) / 2 == i && (2 * i + 1) % 2 == 1 && (2 * i) % 2 == 0;
  }

  lemma BaseAssoc(x: KPoly, y: KPoly, z: KPoly)
    ensures Base(Base(x, y), z) == Base(x, Base(y, z))
  {
    hide PairRho, Base;
    var u, v := Base(Base(x, y), z), Base(x, Base(y, z));
    forall j: nat | j < 256 ensures u[j] == v[j] {
      var i := j / 2;
      BasePairAt(x, y, i);
      BasePairAt(y, z, i);
      BasePairAt(Base(x, y), z, i);
      BasePairAt(x, Base(y, z), i);
      PairAssoc(PairRho(i), x[2 * i], x[2 * i + 1], y[2 * i], y[2 * i + 1], z[2 * i], z[2 * i + 1]);
      assert j == 2 * i || j == 2 * i + 1;
    }
  }

  // ------------------------------------------------------------ exchanging the two sums

  ghost predicate Rect(g: seq<KVec>, m: nat) { forall i | 0 <= i < |g| :: |g[i]| == m }

  /** Column j of a grid. */
  function Transposed(A: seq<KVec>, j: nat): (r: KVec)
    ensures |r| == |A|
  {
    seq<KPoly>(|A|, i requires 0 <= i < |A| => if j < |A[i]| then A[i][j] else ZeroK())
  }

  /** The row sums over the first m columns, and the sums of those columns. */
  function RowSums(g: seq<KVec>, m: nat): (r: KVec)
    ensures |r| == |g|
  {
    seq<KPoly>(|g|, i requires 0 <= i < |g| => if m <= |g[i]| then Sum(g[i], m) else ZeroK())
  }

  function ColumnSums(g: seq<KVec>, m: nat): (r: KVec)
    ensures |r| == m
  {
    seq<KPoly>(m, j requires 0 <= j < m => Sum(Transposed(g, j), |g|))
  }

  lemma {:induction false} SumsExchange(g: seq<KVec>, w: nat, m: nat)
    requires Rect(g, w) && m <= w
    ensures Sum(RowSums(g, m), |g|) == Sum(ColumnSums(g, m), m)
    decreases m
  {
    hide Plus, Sum;
    if m == 0 {
      NothingSummed(g, w, |g|);
    } else {
      SumsExchange(g, w, m - 1);
      ColumnSumsNext(g, m);
      RowSumsNext(g, w, m);
      SumAdd(RowSums(g, m - 1), Transposed(g, m - 1), |g|);
    }
  }

  lemma RowSumsNext(g: seq<KVec>, w: nat, m: nat)
    requires Rect(g, w) && 0 < m <= w
    ensures RowSums(g, m) == AddAll(RowSums(g, m - 1), Transposed(g, m - 1))
  {
    hide Plus;
    var u, v := RowSums(g, m), AddAll(RowSums(g, m - 1), Transposed(g, m - 1));
    forall i | 0 <= i < |g| ensures u[i] == v[i] { SumNext(g[i], m); }
    assert u == v;
  }

  lemma {:induction false} NothingSummed(g: seq<KVec>, w: nat, n: nat)
    requires Rect(g, w) && n <= |g|
    ensures Sum(RowSums(g, 0), n) == ZeroK() == Sum(ColumnSums(g, 0), 0)
    decreases n
  {
    if n > 0 {
      NothingSummed(g, w, n - 1);
      assert Plus(ZeroK(), ZeroK()) == ZeroK();
    }
  }

  lemma ColumnSumsNext(g: seq<KVec>, m: nat)
    requires 0 < m
    ensures Sum(ColumnSums(g, m), m) == Plus(Sum(ColumnSums(g, m - 1), m - 1), Sum(Transposed(g, m - 1), |g|))
  {
    hide Plus;
    var a, b := ColumnSums(g, m), ColumnSums(g, m - 1);
    SumPrefix(a, b, m - 1);
    SumNext(a, m);
  }

  lemma {:induction false} SumPrefix(v: KVec, w: KVec, n: nat)
    requires n <= |v| && n <= |w| && forall i | 0 <= i < n :: v[i] == w[i]
    ensures Sum(v, n) == Sum(w, n)
    decreases n
  {
    hide Plus;
    if n > 0 { SumPrefix(v, w, n - 1); }
  }

  // ------------------------------------------------------------ inner products as sums

  /** The terms of an inner product on transforms. */
  function Terms(a: KVec, x: KVec): (r: KVec)
    requires |a| == |x|
    ensures |r| == |a|
  {
    seq<KPoly>(|a|, j requires 0 <= j < |a| => Base(a[j], KHat(x[j])))
  }

  lemma {:induction false} DotIsSum(a: KVec, x: KVec, n: nat)
    requires n <= |a| == |x|
    ensures KDot(a, x, n) == Sum(Terms(a, x), n)
    decreases n
  {
    hide Base, KHat, Plus;
    if n > 0 { DotIsSum(a, x, n - 1); }
  }

  /** Every A_ij s_j r_i, transformed. */
  function Grid(A: seq<KVec>, s: KVec, r: KVec): (g: seq<KVec>)
    requires |A| == |r| && Rect(A, |s|)
    ensures |g| == |A| && Rect(g, |s|)
  {
    seq<KVec>(|A|, i requires 0 <= i < |A| => Times(Terms(A[i], s), KHat(r[i])))
  }

  lemma GridAt(A: seq<KVec>, s: KVec, r: KVec, i: nat)
    requires |A| == |r| && Rect(A, |s|) && i < |A|
    ensures Grid(A, s, r)[i] == Times(Terms(A[i], s), KHat(r[i]))
  {
    hide Base, KHat;
  }

  lemma GridRow(a: KVec, s: KVec, y: KPoly)
    requires |a| == |s|
    ensures Base(KDot(a, s, |s|), y) == Sum(Times(Terms(a, s), y), |s|)
  {
    hide Base, KHat, KDot, Sum;
    DotIsSum(a, s, |s|);
    BaseOfSum(Terms(a, s), y, |s|);
  }

  lemma Rotate(a: KPoly, r: KPoly, s: KPoly)
    ensures Base(Base(a, r), s) == Base(Base(a, s), r)
  {
    hide Base;
    BaseAssoc(a, r, s);
    BaseSwap(r, s);
    BaseAssoc(a, s, r);
  }

  lemma GridColumn(A: seq<KVec>, s: KVec, r: KVec, j: nat)
    requires |A| == |r| && Rect(A, |s|) && j < |s|
    ensures Base(KDot(Transposed(A, j), r, |r|), KHat(s[j])) == Sum(Transposed(Grid(A, s, r), j), |r|)
  {
    hide Base, KHat, KDot, Sum;
    var b := Transposed(A, j);
    DotIsSum(b, r, |r|);
    BaseOfSum(Terms(b, r), KHat(s[j]), |r|);
    var u, v := Times(Terms(b, r), KHat(s[j])), Transposed(Grid(A, s, r), j);
    forall i | 0 <= i < |r| ensures u[i] == v[i] { Rotate(A[i][j], KHat(r[i]), KHat(s[j])); }
    assert u == v;
  }

  // ------------------------------------------------------------ the two inner products share the grid

  function HatAll(x: KVec): (r: KVec)
    ensures |r| == |x|
  {
    seq<KPoly>(|x|, i requires 0 <= i < |x| => KHat(x[i]))
  }

  /** t = A s + e, transformed. */
  ghost predicate PublicRows(A: seq<KVec>, s: KVec, e: KVec, t: KVec) {
    && |A| == |e| == |t| && Rect(A, |s|)
    && forall i | 0 <= i < |t| :: KSame(t[i], Plus(KDot(A[i], s, |s|), KHat(e[i])))
  }

  /** u = A^T r + f, transformed. */
  ghost predicate SecretColumns(A: seq<KVec>, r: KVec, f: KVec, u: KVec) {
    && |A| == |r| && |f| == |u|
    && forall j | 0 <= j < |f| :: KSame(KHat(u[j]), Plus(KDot(Transposed(A, j), r, |r|), KHat(f[j])))
  }

  ghost predicate HatOf(h: KVec, s: KVec) { |h| == |s| && forall j | 0 <= j < |h| :: KSame(h[j], KHat(s[j])) }

  /** t . r for t = A s + e: the grid's sum and e . r. */
  lemma PublicSide(A: seq<KVec>, s: KVec, e: KVec, r: KVec, t: KVec)
    requires |A| == |e| == |r| == |t| && Rect(A, |s|)
    requires PublicRows(A, s, e, t)
    ensures KSame(KDot(t, r, |r|), Plus(Sum(RowSums(Grid(A, s, r), |s|), |r|), KDot(HatAll(e), r, |r|)))
  {
    hide Base, KHat, KDot, Sum, Plus, KSame, Grid;
    var n, g := |r|, Grid(A, s, r);
    DotIsSum(t, r, n);
    DotIsSum(HatAll(e), r, n);
    var u, v := Terms(t, r), AddAll(RowSums(g, |s|), Terms(HatAll(e), r));
    forall i | 0 <= i < n ensures KSame(u[i], v[i]) {
      var d := KDot(A[i], s, |s|);
      KSameRefl(KHat(r[i]));
      BaseSame(t[i], Plus(d, KHat(e[i])), KHat(r[i]), KHat(r[i]));
      BasePlus(d, KHat(e[i]), KHat(r[i]));
      GridAt(A, s, r, i);
      GridRow(A[i], s, KHat(r[i]));
    }
    SumSame(u, v, n);
    SumAdd(RowSums(g, |s|), Terms(HatAll(e), r), n);
  }

  /** s . u for u = A^T r + f: the same grid's sum and s . f. */
  lemma SecretSide(A: seq<KVec>, s: KVec, r: KVec, f: KVec, h: KVec, u: KVec)
    requires |A| == |r| && |s| == |f| == |h| == |u| && Rect(A, |s|)
    requires HatOf(h, s)
    requires SecretColumns(A, r, f, u)
    ensures KSame(KDot(h, u, |u|), Plus(Sum(ColumnSums(Grid(A, s, r), |s|), |s|), KDot(h, f, |f|)))
  {
    hide Base, KHat, KDot, Sum, Plus, KSame, Grid;
    var n, g := |s|, Grid(A, s, r);
    DotIsSum(h, u, n);
    DotIsSum(h, f, n);
    var x, y := Terms(h, u), AddAll(ColumnSums(g, n), Terms(h, f));
    forall j | 0 <= j < n ensures KSame(x[j], y[j]) {
      SecretTerm(A, s, r, f[j], h[j], u[j], j);
    }
    SumSame(x, y, n);
    SumAdd(ColumnSums(g, n), Terms(h, f), n);
  }

  lemma SecretTerm(A: seq<KVec>, s: KVec, r: KVec, f: KPoly, h: KPoly, u: KPoly, j: nat)
    requires |A| == |r| && Rect(A, |s|) && j < |s|
    requires KSame(h, KHat(s[j])) && KSame(KHat(u), Plus(KDot(Transposed(A, j), r, |r|), KHat(f)))
    ensures KSame(Base(h, KHat(u)), Plus(Sum(Transposed(Grid(A, s, r), j), |r|), Base(h, KHat(f))))
  {
    hide Base, KHat, KDot, Sum, Plus, KSame, Grid, Transposed;
    var d := KDot(Transposed(A, j), r, |r|);
    KSameRefl(h);
    BaseSame(h, h, KHat(u), Plus(d, KHat(f)));
    BasePlus(d, KHat(f), h);
    KSameRefl(d);
    BaseSame(h, KHat(s[j]), d, d);
    BaseSwap(KHat(s[j]), d);
    GridColumn(A, s, r, j);
    KSameRefl(Base(h, KHat(f)));
    KSamePlus(Base(h, d), Sum(Transposed(Grid(A, s, r), j), |r|), Base(h, KHat(f)), Base(h, KHat(f)));
    KSameTrans(Base(h, KHat(u)), Plus(Base(h, d), Base(h, KHat(f))),
      Plus(Sum(Transposed(Grid(A, s, r), j), |r|), Base(h, KHat(f))));
  }

  // ------------------------------------------------------------ back in the ring

  /** The first n terms of an inner product of negacyclic products. */
  function RingDot(x: KVec, y: KVec, n: nat): (r: KPoly)
    requires n <= |x| && n <= |y|
    decreases n
  {
    if n == 0 then ZeroK() else Plus(RingDot(x, y, n - 1), Product(x[n - 1], y[n - 1]))
  }

  lemma UnhatOfZero()
    ensures KUnhat(ZeroK()) == ZeroK()
  {
    hide KUnhat;
    var z := KUnhat(ZeroK());
    assert Plus(ZeroK(), ZeroK()) == ZeroK();
    KUnhatPlus(ZeroK(), ZeroK());
    forall i | 0 <= i < 256 ensures z[i] == 0 { assert Plus(z, z)[i] == z[i] + z[i]; }
    assert z == ZeroK();
  }

  lemma {:induction false} DotInRing(h: KVec, x: KVec, y: KVec, n: nat)
    requires n <= |h| == |x| == |y| && HatOf(h, x)
    ensures KSame(KUnhat(KDot(h, y, n)), RingDot(x, y, n))
    decreases n
  {
    hide Base, KHat, KUnhat, Plus, KSame, Product;
    if n == 0 {
      UnhatOfZero();
      KSameRefl(ZeroK());
    } else {
      DotInRing(h, x, y, n - 1);
      var b := Base(h[n - 1], KHat(y[n - 1]));
      KUnhatPlus(KDot(h, y, n - 1), b);
      KSameRefl(KHat(y[n - 1]));
      BaseSame(h[n - 1], KHat(x[n - 1]), KHat(y[n - 1]), KHat(y[n - 1]));
      KUnhatSame(b, Base(KHat(x[n - 1]), KHat(y[n - 1])));
      KProductByTransform(x[n - 1], y[n - 1]);
      KSameTrans(KUnhat(b), KUnhat(Base(KHat(x[n - 1]), KHat(y[n - 1]))), Product(x[n - 1], y[n - 1]));
      KSamePlus(KUnhat(KDot(h, y, n - 1)), RingDot(x, y, n - 1), KUnhat(b), Product(x[n - 1], y[n - 1]));
    }
  }

  /** a . x on transforms, back in the ring, plus b . y in the ring. */
  function Combined(a: KVec, x: KVec, b: KVec, y: KVec): (r: KPoly)
    requires |a| == |x| && |b| == |y|
  {
    Plus(Inner(a, x), RingDot(b, y, |b|))
  }

  /** The public product is the secret one plus e . r - s . f, back in the ring. */
  lemma ProductsMeet(A: seq<KVec>, s: KVec, e: KVec, r: KVec, f: KVec, t: KVec, h: KVec, u: KVec)
    requires |A| == |e| == |r| == |t| && |s| == |f| == |h| == |u| && Rect(A, |s|)
    requires PublicRows(A, s, e, t)
    requires HatOf(h, s)
    requires SecretColumns(A, r, f, u)
    ensures KSame(Combined(t, r, s, f), Combined(h, u, e, r))
  {
    hide Base, KHat, KUnhat, KDot, Sum, Plus, KSame, Grid, Transposed, RingDot, PublicRows, SecretColumns;
    var g := Grid(A, s, r);
    PublicSide(A, s, e, r, t);
    SecretSide(A, s, r, f, h, u);
    SumsExchange(g, |s|, |s|);
    forall i | 0 <= i < |e| ensures KSame(HatAll(e)[i], KHat(e[i])) { KSameRefl(KHat(e[i])); }
    var G := Sum(RowSums(g, |s|), |r|);
    InRing(KDot(t, r, |r|), G, KDot(HatAll(e), r, |r|));
    InRing(KDot(h, u, |u|), G, KDot(h, f, |f|));
    DotInRing(HatAll(e), e, r, |r|);
    DotInRing(h, s, f, |s|);
    Cancelled(Inner(t, r), Inner(h, u), KUnhat(G), KUnhat(KDot(HatAll(e), r, |r|)), KUnhat(KDot(h, f, |f|)),
      RingDot(e, r, |r|), RingDot(s, f, |s|));
  }

  lemma InRing(x: KPoly, g: KPoly, y: KPoly)
    requires KSame(x, Plus(g, y))
    ensures KSame(KUnhat(x), Plus(KUnhat(g), KUnhat(y)))
  {
    hide KUnhat, KSame, Plus;
    KUnhatSame(x, Plus(g, y));
    KUnhatPlus(g, y);
  }

  lemma Cancelled(x: KPoly, y: KPoly, g: KPoly, a: KPoly, b: KPoly, ea: KPoly, eb: KPoly)
    requires KSame(x, Plus(g, a)) && KSame(y, Plus(g, b)) && KSame(a, ea) && KSame(b, eb)
    ensures KSame(Plus(x, eb), Plus(y, ea))
  {
    hide KSame, Plus;
    KSameRefl(g);
    KSameSym(b, eb);
    KSamePlus(x, Plus(g, a), eb, b);
    KSameSym(y, Plus(g, b));
    KSamePlus(Plus(g, b), y, a, ea);
    PlusTurn(g, a, b);
    KSameTrans(Plus(x, eb), Plus(Plus(g, a), b), Plus(y, ea));
  }

  lemma PlusTurn(g: KPoly, a: KPoly, b: KPoly)
    ensures Plus(Plus(g, a), b) == Plus(Plus(g, b), a)
  {
  }
}
