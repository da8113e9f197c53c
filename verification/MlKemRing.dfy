/** Z_3329[X]/(X^256 + 1) through ML-KEM's incomplete transform: residues modulo X^2 - zeta,
    multiplied pair by pair. */
module MlKemRing {
  import opened ModArith
  import opened NttTree
  import opened NegacyclicRing
  import opened NttLoop
  import opened TreeProduct
  import opened MlKemArith
  import opened MlKemNtt

  /** 256 coefficients, equal mod q. */
  ghost predicate KSame(a: seq<int>, b: seq<int>) {
    |a| == |b| == 256 && CongSeq(a, b, KQ)
  }

  lemma KSameRefl(a: seq<int>)
    requires |a| == 256
    ensures KSame(a, a)
  {
    CongSeqRefl(a, KQ);
  }

  lemma KSameSym(a: seq<int>, b: seq<int>)
    requires KSame(a, b)
    ensures KSame(b, a)
  {
    CongSeqSym(a, b, KQ);
  }

  lemma KSameTrans(a: seq<int>, b: seq<int>, c: seq<int>)
    requires KSame(a, b) && KSame(b, c)
    ensures KSame(a, c)
  {
    CongSeqTrans(a, b, c, KQ);
  }

  lemma KSamePlus(a: seq<int>, b: seq<int>, c: seq<int>, e: seq<int>)
    requires KSame(a, b) && KSame(c, e)
    ensures KSame(Plus(a, c), Plus(b, e))
  {
    CongSeqPlus(a, b, c, e, KQ);
  }

  lemma KSameScale(s: int, a: seq<int>, b: seq<int>)
    requires KSame(a, b)
    ensures KSame(Scale(s, a), Scale(s, b))
  {
    ScaleCong(s, a, b, KQ);
  }

  lemma KSameFactor(s: int, t: int, a: seq<int>)
    requires Cong(s, t, KQ) && |a| == 256
    ensures KSame(Scale(s, a), Scale(t, a))
  {
    forall i | 0 <= i < 256 ensures Cong(Scale(s, a)[i], Scale(t, a)[i], KQ) {
      CongScale(a[i], s, t, KQ);
      assert a[i] * s == s * a[i] && a[i] * t == t * a[i];
    }
  }

  lemma KSameLength(a: seq<int>, b: seq<int>)
    requires KSame(a, b)
    ensures |a| == |b| == 256
  {
  }

  function KCanon(a: seq<int>): (r: seq<int>)
    ensures |r| == |a| && forall i | 0 <= i < |a| :: r[i] == a[i] % KQ && 0 <= r[i] < KQ
  {
    seq(|a|, i requires 0 <= i < |a| => a[i] % KQ)
  }

  lemma KCanonSame(a: seq<int>)
    requires |a| == 256
    ensures KSame(KCanon(a), a) && KSame(a, KCanon(a))
  {
    hide Cong;
    forall i | 0 <= i < 256 ensures Cong(KCanon(a)[i], a[i], KQ) && Cong(a[i], KCanon(a)[i], KQ) { CongMod(a[i], KQ); }
  }

  lemma KCanonUnique(a: seq<int>, b: seq<int>)
    requires KSame(a, b)
    ensures KCanon(a) == KCanon(b)
  {
    hide Cong;
    forall i | 0 <= i < 256 ensures KCanon(a)[i] == KCanon(b)[i] { CongSameMod(a[i], b[i], KQ); }
  }

  // ------------------------------------------------------------ the transforms

  lemma KHatIs(a: seq<int>, d: nat)
    requires |a| == 256 && d == 7
    ensures Size(2, d) == 256 && Pow2(d) == 128 && KHat(a) == Forward(a, 2, d, 1, KZ())
  {
    hide Forward, KZ;
    KShape(d);
  }

  lemma KUnhatIs(a: seq<int>, d: nat)
    requires |a| == 256 && d == 7
    ensures Size(2, d) == 256 && Pow2(d) == 128 && KUnhat(a) == Scale(KNINV, Inverse(a, 2, d, 1, KZI()))
  {
    hide Inverse, KZI;
    KShape(d);
  }

  lemma KHatSame(a: seq<int>, b: seq<int>)
    requires KSame(a, b)
    ensures KSame(KHat(a), KHat(b))
  {
    hide Forward, KZ, CongSeq, Size, KHat;
    var d: nat :| d == 7;
    KHatIs(a, d);
    KHatIs(b, d);
    ForwardCong(a, b, 2, d, 1, KZ(), KQ);
  }

  lemma KHatPlus(a: seq<int>, b: seq<int>)
    requires |a| == |b| == 256
    ensures KHat(Plus(a, b)) == Plus(KHat(a), KHat(b))
  {
    hide Forward, KZ, Size, KHat, Plus;
    var d: nat :| d == 7;
    KHatIs(a, d);
    KHatIs(b, d);
    KHatIs(Plus(a, b), d);
    ForwardPlus(a, b, 2, d, 1, KZ());
  }

  lemma KHatScale(s: int, a: seq<int>)
    requires |a| == 256
    ensures KHat(Scale(s, a)) == Scale(s, KHat(a))
  {
    hide Forward, KZ, Size, KHat, Scale;
    var d: nat :| d == 7;
    KHatIs(a, d);
    KHatIs(Scale(s, a), d);
    ForwardScale(s, a, 2, d, 1, KZ());
  }

  lemma KUnhatSame(a: seq<int>, b: seq<int>)
    requires KSame(a, b)
    ensures KSame(KUnhat(a), KUnhat(b))
  {
    hide Inverse, KZI, CongSeq, Size, KUnhat;
    var d: nat :| d == 7;
    KUnhatIs(a, d);
    KUnhatIs(b, d);
    InverseCong(a, b, 2, d, 1, KZI(), KQ);
    ScaleCong(KNINV, Inverse(a, 2, d, 1, KZI()), Inverse(b, 2, d, 1, KZI()), KQ);
  }

  lemma KUnhatPlus(a: seq<int>, b: seq<int>)
    requires |a| == |b| == 256
    ensures KUnhat(Plus(a, b)) == Plus(KUnhat(a), KUnhat(b))
  {
    hide Inverse, KZI, CongSeq, Size, KUnhat, Plus, Scale;
    var d: nat :| d == 7;
    KUnhatIs(a, d);
    KUnhatIs(b, d);
    KUnhatIs(Plus(a, b), d);
    InversePlus(a, b, 2, d, 1, KZI());
    ScalePlusSeq(KNINV, Inverse(a, 2, d, 1, KZI()), Inverse(b, 2, d, 1, KZI()));
  }

  /** 128 * 128^-1 = 1. */
  lemma KUnscale(a: seq<int>)
    requires |a| == 256
    ensures KSame(Scale(KNINV, Scale(128, a)), a) && KSame(Scale(128, Scale(KNINV, a)), a)
  {
    ScaleScale(KNINV, 128, a);
    ScaleScale(128, KNINV, a);
    CongIntro(KNINV * 128, 1, KQ, (KNINV * 128 - 1) / KQ);
    KSameFactor(KNINV * 128, 1, a);
    assert Scale(1, a) == a;
  }

  lemma KUnhatHat(a: seq<int>)
    requires |a| == 256
    ensures KSame(KUnhat(KHat(a)), a)
  {
    hide Forward, Inverse, KZ, KZI, CongSeq, Size, KUnhat, KHat, Reciprocal, Compatible;
    var d: nat :| d == 7;
    KHatIs(a, d);
    KUnhatIs(KHat(a), d);
    KTreeFacts();
    InverseForward(a, 2, d, 1, KZ(), KZI(), KQ);
    ScaleCong(KNINV, Inverse(KHat(a), 2, d, 1, KZI()), Scale(128, a), KQ);
    KUnscale(a);
    KSameTrans(KUnhat(KHat(a)), Scale(KNINV, Scale(128, a)), a);
  }

  lemma KHatUnhat(r: seq<int>)
    requires |r| == 256
    ensures KSame(KHat(KUnhat(r)), r)
  {
    hide Forward, Inverse, KZ, KZI, CongSeq, Size, KUnhat, KHat, Reciprocal, Compatible;
    var d: nat :| d == 7;
    KUnhatIs(r, d);
    var v := Inverse(r, 2, d, 1, KZI());
    KHatIs(v, d);
    KHatScale(KNINV, v);
    KTreeFacts();
    ForwardInverse(r, 2, d, 1, KZ(), KZI(), KQ);
    ScaleCong(KNINV, KHat(v), Scale(128, r), KQ);
    KUnscale(r);
    KSameTrans(KHat(KUnhat(r)), Scale(KNINV, Scale(128, r)), r);
  }

  // ------------------------------------------------------------ base-case products

  lemma MulPair(a: seq<int>, b: seq<int>, rho: int)
    requires |a| == |b| == 2
    ensures Mul(a, b, rho)[0] == a[0] * b[0] + rho * (a[1] * b[1]) && Mul(a, b, rho)[1] == a[0] * b[1] + a[1] * b[0]
  {
    var t := Mul(a[1..], b, rho);
    assert a[1..][1..] == [];
    assert Mul([], b, rho) == Nil(2);
    assert Shift(Nil(2), rho) == Nil(2);
    assert t[0] == a[1] * b[0] && t[1] == a[1] * b[1];
  }

  /** The constant of leaf i under node k of depth d. */
  function LeafRho(k: nat, d: nat, i: nat, z: nat -> int): int
    requires 0 < d
  {
    var c := z(k * Pow2(d - 1) + i / 2);
    if i % 2 == 0 then c else -c
  }

  /** Pair i of t is the product of pairs i of x and y modulo X^2 - c. */
  ghost predicate PairAt(x: seq<int>, y: seq<int>, t: seq<int>, i: nat, c: int) {
    2 * i + 1 < |x| == |y| == |t|
    && t[2 * i] == x[2 * i] * y[2 * i] + c * (x[2 * i + 1] * y[2 * i + 1])
    && t[2 * i + 1] == x[2 * i] * y[2 * i + 1] + x[2 * i + 1] * y[2 * i]
  }

  lemma PairLeft(x: seq<int>, y: seq<int>, t: seq<int>, u: seq<int>, h: nat, i: nat, c: int)
    requires h <= |x| == |y| == |t| + |u| && PairAt(x[..h], y[..h], t, i, c)
    ensures PairAt(x, y, t + u, i, c)
  {
  }

  lemma PairRight(x: seq<int>, y: seq<int>, t: seq<int>, u: seq<int>, h: nat, i: nat, c: int)
    requires 2 * h <= |x| == |y| == |t| + |u| && |t| == 2 * h && PairAt(x[2 * h..], y[2 * h..], u, i, c)
    ensures PairAt(x, y, t + u, h + i, c)
  {
    var n := 2 * (h + i);
    assert x[2 * h..][2 * i] == x[n] && x[2 * h..][2 * i + 1] == x[n + 1];
    assert y[2 * h..][2 * i] == y[n] && y[2 * h..][2 * i + 1] == y[n + 1];
    assert (t + u)[n] == u[2 * i] && (t + u)[n + 1] == u[2 * i + 1];
  }

  lemma PairLeaf(x: seq<int>, y: seq<int>, c: int)
    requires |x| == |y| == 2
    ensures PairAt(x, y, Mul(x, y, c), 0, c)
  {
    MulPair(x, y, c);
  }

  lemma LeafOne(k: nat, z: nat -> int)
    ensures LeafRho(k, 1, 0, z) == z(k) && LeafRho(k, 1, 1, z) == -z(k)
  {
    assert k * Pow2(0) == k;
  }

  lemma LeafChild(k: nat, d: nat, i: nat, z: nat -> int)
    requires 1 < d
    ensures i < Pow2(d - 1) ==> LeafRho(2 * k, d - 1, i, z) == LeafRho(k, d, i, z)
    ensures i >= Pow2(d - 1) ==> LeafRho(2 * k + 1, d - 1, i - Pow2(d - 1), z) == LeafRho(k, d, i, z)
  {
    Pow2Double(d - 1);
    hide Pow2;
    ChildIndex(k, Pow2(d - 1), Pow2(d - 2), i);
  }

  lemma TreePairsOne(x: seq<int>, y: seq<int>, d: nat, k: nat, rho: int, z: nat -> int, i: nat)
    requires d == 1 && |x| == |y| == Size(2, d) && i < Pow2(d)
    ensures PairAt(x, y, TreeMul(x, y, 2, d, k, rho, z), i, LeafRho(k, d, i, z))
  {
    assert Size(2, 1) == 4 && Pow2(1) == 2;
    TreeStep(x, y, d, k, rho, z);
    LeafMul(x[..2], y[..2], 2, 2 * k, z(k), z);
    LeafMul(x[2..], y[2..], 2, 2 * k + 1, -z(k), z);
    PairLeaf(x[..2], y[..2], z(k));
    PairLeaf(x[2..], y[2..], -z(k));
    LeafOne(k, z);
    hide TreeMul, PairAt, Mul, LeafRho;
    if i == 0 {
      PairLeft(x, y, Mul(x[..2], y[..2], z(k)), Mul(x[2..], y[2..], -z(k)), 2, 0, z(k));
    } else {
      PairRight(x, y, Mul(x[..2], y[..2], z(k)), Mul(x[2..], y[2..], -z(k)), 1, 0, -z(k));
    }
  }

  lemma {:induction false} TreePairs(x: seq<int>, y: seq<int>, d: nat, k: nat, rho: int, z: nat -> int, i: nat)
    requires 0 < d && |x| == |y| == Size(2, d) && i < Pow2(d)
    ensures PairAt(x, y, TreeMul(x, y, 2, d, k, rho, z), i, LeafRho(k, d, i, z))
    decreases d
  {
    hide TreeMul, PairAt, Mul, LeafRho;
    if d == 1 {
      TreePairsOne(x, y, d, k, rho, z, i);
    } else {
      SizeIsProduct(2, d - 1);
      var h, w := Size(2, d - 1), Pow2(d - 1);
      TreeStep(x, y, d, k, rho, z);
      LeafChild(k, d, i, z);
      var t, u := TreeMul(x[..h], y[..h], 2, d - 1, 2 * k, z(k), z),
        TreeMul(x[h..], y[h..], 2, d - 1, 2 * k + 1, -z(k), z);
      if i < w {
        TreePairs(x[..h], y[..h], d - 1, 2 * k, z(k), z, i);
        PairLeft(x, y, t, u, h, i, LeafRho(k, d, i, z));
      } else {
        TreePairs(x[h..], y[h..], d - 1, 2 * k + 1, -z(k), z, i - w);
        PairRight(x, y, t, u, w, i - w, LeafRho(k, d, i, z));
      }
    }
  }

  lemma TreeStep(x: seq<int>, y: seq<int>, d: nat, k: nat, rho: int, z: nat -> int)
    requires 0 < d && |x| == |y| == Size(2, d)
    ensures var h := Size(2, d - 1);
      TreeMul(x, y, 2, d, k, rho, z) ==
      TreeMul(x[..h], y[..h], 2, d - 1, 2 * k, z(k), z) + TreeMul(x[h..], y[h..], 2, d - 1, 2 * k + 1, -z(k), z)
  {
  }

  lemma ChildIndex(k: nat, w: nat, v: nat, i: nat)
    requires w == 2 * v
    ensures (2 * k) * v + i / 2 == k * w + i / 2
    ensures i >= w ==> (2 * k + 1) * v + (i - w) / 2 == k * w + i / 2 && (i - w) % 2 == i % 2
  {
    assert (2 * k) * v == k * w && (2 * k + 1) * v == k * w + v;
  }

  /** Constant of pair i: the table's second half, with alternating sign. */
  function PairRho(i: nat): int { if i % 2 == 0 then KZ()(64 + i / 2) else -KZ()(64 + i / 2) }

  /** Pairwise products modulo X^2 - zeta: section 4.3.1 of FIPS 203 (MultiplyNTTs). */
  function Base(x: seq<int>, y: seq<int>): (r: seq<int>)
    requires |x| == |y| == 256
    ensures |r| == 256
  {
    seq(256, j requires 0 <= j < 256 => BaseAt(x, y, j))
  }

  function BaseAt(x: seq<int>, y: seq<int>, j: nat): int
    requires |x| == |y| == 256 && j < 256
  {
    var i := j / 2;
    if j % 2 == 0 then x[j] * y[j] + PairRho(i) * (x[j + 1] * y[j + 1]) else x[j - 1] * y[j] + x[j] * y[j - 1]
  }

  lemma BaseEquals(x: seq<int>, y: seq<int>, t: seq<int>)
    requires |x| == |y| == |t| == 256 && forall j | 0 <= j < 256 :: BaseAt(x, y, j) == t[j]
    ensures Base(x, y) == t
  {
    hide BaseAt;
  }

  lemma BaseTreeAt(x: seq<int>, y: seq<int>, t: seq<int>, d: nat, j: nat)
    requires d == 7 && |x| == |y| == Size(2, d) == 256 && Pow2(d) == 128 && j < 256
    requires t == TreeMul(x, y, 2, d, 1, -1, KZ())
    ensures BaseAt(x, y, j) == t[j]
  {
    hide TreeMul, KZ, Size, Pow2, PairAt, LeafRho, PairRho, BaseAt;
    TreePairs(x, y, d, 1, -1, KZ(), j / 2);
    LeafIsPair(d, j / 2);
    PairBase(x, y, t, j);
  }

  lemma BaseIsTree(x: seq<int>, y: seq<int>, d: nat)
    requires d == 7 && |x| == |y| == 256
    ensures Size(2, d) == 256 && Base(x, y) == TreeMul(x, y, 2, d, 1, -1, KZ())
  {
    hide TreeMul, KZ, Size, Pow2, BaseAt, Base;
    KShape(d);
    var t := TreeMul(x, y, 2, d, 1, -1, KZ());
    forall j: nat | j < 256 ensures BaseAt(x, y, j) == t[j] { BaseTreeAt(x, y, t, d, j); }
    BaseEquals(x, y, t);
  }

  lemma LeafIsPair(d: nat, i: nat)
    requires d == 7
    ensures LeafRho(1, d, i, KZ()) == PairRho(i)
  {
    hide KZ;
    Seven();
  }

  lemma PairBase(x: seq<int>, y: seq<int>, t: seq<int>, j: nat)
    requires |x| == |y| == |t| == 256 && j < 256 && PairAt(x, y, t, j / 2, PairRho(j / 2))
    ensures BaseAt(x, y, j) == t[j]
  {
    hide PairRho;
    if j % 2 == 0 { assert j == 2 * (j / 2); } else { assert j == 2 * (j / 2) + 1; }
  }

  /** Transforms multiply pair by pair. */
  lemma KHatProduct(a: seq<int>, b: seq<int>)
    requires |a| == |b| == 256
    ensures KSame(KHat(Product(a, b)), Base(KHat(a), KHat(b)))
  {
    hide Forward, KZ, CongSeq, Size, KHat, Reciprocal, Compatible, Product, TreeMul, Base, Mul;
    var d: nat :| d == 7;
    KHatIs(a, d);
    KHatIs(b, d);
    KHatIs(Product(a, b), d);
    KCompatible(d);
    ForwardOfMul(a, b, 2, d, 1, -1, KZ(), KQ);
    MulIsProduct(a, b);
    BaseIsTree(KHat(a), KHat(b), d);
  }

  lemma KCompatible(d: nat)
    requires d == 7
    ensures Compatible(d, 1, -1, KZ(), KQ)
  {
    hide Compatible, Reciprocal, KZ;
    KTreeFacts();
  }

  /** The inverse transform of the base-case product of two forward transforms is the
      negacyclic product. */
  lemma KProductByTransform(a: seq<int>, b: seq<int>)
    requires |a| == |b| == 256
    ensures KSame(KUnhat(Base(KHat(a), KHat(b))), Product(a, b))
  {
    hide KUnhat, KHat, Product, Base, CongSeq, KSame;
    KHatProduct(a, b);
    KUnhatSame(KHat(Product(a, b)), Base(KHat(a), KHat(b)));
    KUnhatHat(Product(a, b));
    KSameSym(KUnhat(KHat(Product(a, b))), KUnhat(Base(KHat(a), KHat(b))));
    KSameTrans(KUnhat(Base(KHat(a), KHat(b))), KUnhat(KHat(Product(a, b))), Product(a, b));
  }

  lemma BaseScalar(c: int, x: int, y: int, x': int, y': int)
    requires Cong(x, x', KQ) && Cong(y, y', KQ)
    ensures Cong(c * (x * y), c * (x' * y'), KQ)
  {
    CongMul(x, x', y, y', KQ);
    CongScale(c, x * y, x' * y', KQ);
  }

  lemma BaseSame(a: seq<int>, b: seq<int>, c: seq<int>, e: seq<int>)
    requires KSame(a, b) && KSame(c, e)
    ensures KSame(Base(a, c), Base(b, e))
  {
    hide Cong, PairRho;
    forall j | 0 <= j < 256 ensures Cong(Base(a, c)[j], Base(b, e)[j], KQ) {
      if j % 2 == 0 {
        CongMul(a[j], b[j], c[j], e[j], KQ);
        BaseScalar(PairRho(j / 2), a[j + 1], c[j + 1], b[j + 1], e[j + 1]);
        CongAdd(a[j] * c[j], b[j] * e[j], PairRho(j / 2) * (a[j + 1] * c[j + 1]),
          PairRho(j / 2) * (b[j + 1] * e[j + 1]), KQ);
      } else {
        CongMul(a[j - 1], b[j - 1], c[j], e[j], KQ);
        CongMul(a[j], b[j], c[j - 1], e[j - 1], KQ);
        CongAdd(a[j - 1] * c[j], b[j - 1] * e[j], a[j] * c[j - 1], b[j] * e[j - 1], KQ);
      }
    }
  }

  lemma BaseSwap(x: seq<int>, y: seq<int>)
    requires |x| == |y| == 256
    ensures Base(x, y) == Base(y, x)
  {
    hide PairRho;
    forall j | 0 <= j < 256 ensures Base(x, y)[j] == Base(y, x)[j] {
      if j % 2 == 0 {
        assert x[j] * y[j] == y[j] * x[j] && x[j + 1] * y[j + 1] == y[j + 1] * x[j + 1];
      } else {
        assert x[j - 1] * y[j] == y[j] * x[j - 1] && x[j] * y[j - 1] == y[j - 1] * x[j];
      }
    }
  }

  lemma BaseLinear(c: int, x: int, y: int, u: int, v: int)
    ensures c * ((x + u) * y) == c * (x * y) + c * (u * y) && (x + u) * v == x * v + u * v
  {
    assert (x + u) * y == x * y + u * y;
  }

  lemma BasePlus(x: seq<int>, u: seq<int>, y: seq<int>)
    requires |x| == |u| == |y| == 256
    ensures Base(Plus(x, u), y) == Plus(Base(x, y), Base(u, y))
    ensures Base(y, Plus(x, u)) == Plus(Base(y, x), Base(y, u))
  {
    hide PairRho;
    forall j | 0 <= j < 256 ensures Base(Plus(x, u), y)[j] == Plus(Base(x, y), Base(u, y))[j] {
      if j % 2 == 0 {
        BaseLinear(PairRho(j / 2), x[j + 1], y[j + 1], u[j + 1], 0);
        BaseLinear(1, x[j], y[j], u[j], 0);
      } else {
        BaseLinear(1, x[j - 1], y[j], u[j - 1], 0);
        BaseLinear(1, x[j], y[j - 1], u[j], 0);
      }
    }
    assert Base(Plus(x, u), y) == Plus(Base(x, y), Base(u, y));
    BaseSwap(Plus(x, u), y);
    BaseSwap(x, y);
    BaseSwap(u, y);
  }

  // ------------------------------------------------------------ the code's Montgomery factors

  lemma KFactorsCancel(a: seq<int>)
    requires |a| == 256
    ensures KSame(Scale(KR, Scale(KRINV, a)), a)
  {
    ScaleScale(KR, KRINV, a);
    CongIntro(KR * KRINV, 1, KQ, (KR * KRINV - 1) / KQ);
    KSameFactor(KR * KRINV, 1, a);
    assert Scale(1, a) == a;
  }

  lemma KUnhatScale(s: int, a: seq<int>)
    requires |a| == 256
    ensures KSame(KUnhat(Scale(s, a)), Scale(s, KUnhat(a)))
  {
    hide KUnhat, KHat, CongSeq, KSame;
    KHatUnhat(a);
    KHatScale(s, KUnhat(a));
    KSameScale(s, KHat(KUnhat(a)), a);
    KSameSym(Scale(s, KHat(KUnhat(a))), Scale(s, a));
    KUnhatSame(Scale(s, a), KHat(Scale(s, KUnhat(a))));
    KUnhatHat(Scale(s, KUnhat(a)));
    KSameTrans(KUnhat(Scale(s, a)), KUnhat(KHat(Scale(s, KUnhat(a)))), Scale(s, KUnhat(a)));
  }

  /** A base-case product carries 2^-16, which the inverse transform's 2^16 cancels. */
  lemma KMontgomeryCancels(p: seq<int>, s: seq<int>, out: seq<int>)
    requires |s| == 256 && KSame(p, Scale(KRINV, s)) && KSame(out, Scale(KR, KUnhat(p)))
    ensures KSame(out, KUnhat(s))
  {
    hide KUnhat, CongSeq, KSame;
    KSameLength(p, Scale(KRINV, s));
    KUnhatSame(p, Scale(KRINV, s));
    KUnhatScale(KRINV, s);
    KSameTrans(KUnhat(p), KUnhat(Scale(KRINV, s)), Scale(KRINV, KUnhat(s)));
    KSameScale(KR, KUnhat(p), Scale(KRINV, KUnhat(s)));
    KSameTrans(out, Scale(KR, KUnhat(p)), Scale(KR, Scale(KRINV, KUnhat(s))));
    KFactorsCancel(KUnhat(s));
    KSameTrans(out, Scale(KR, Scale(KRINV, KUnhat(s))), KUnhat(s));
  }
}
