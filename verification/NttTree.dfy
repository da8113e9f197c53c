/** The transform tree shared by ML-DSA and ML-KEM: node k splits a block modulo X^2h - z(k)^2
    into the blocks modulo X^h - z(k) and X^h + z(k). The functions are exact integer maps,
    so they are linear on the nose; the code's values are congruent to them mod q. */
module NttTree {
  import opened ModArith

  /** base blocks doubled d times. */
  function Size(base: nat, d: nat): nat {
    if d == 0 then base else 2 * Size(base, d - 1)
  }

  ghost predicate CongSeq(a: seq<int>, b: seq<int>, q: int)
    requires 0 < q
  {
    |a| == |b| && forall i | 0 <= i < |a| :: Cong(a[i], b[i], q)
  }

  function Plus(a: seq<int>, b: seq<int>): (r: seq<int>)
    requires |a| == |b|
    ensures |r| == |a| && forall i | 0 <= i < |a| :: r[i] == a[i] + b[i]
  {
    seq(|a|, i requires 0 <= i < |a| => a[i] + b[i])
  }

  function Scale(s: int, a: seq<int>): (r: seq<int>)
    ensures |r| == |a| && forall i | 0 <= i < |a| :: r[i] == s * a[i]
  {
    seq(|a|, i requires 0 <= i < |a| => s * a[i])
  }

  // ------------------------------------------------------------ forward

  function Lower(a: seq<int>, s: int): (r: seq<int>)
    ensures |r| == |a| / 2 && forall i | 0 <= i < |a| / 2 :: r[i] == a[i] + s * a[i + |a| / 2]
  {
    seq(|a| / 2, i requires 0 <= i < |a| / 2 => a[i] + s * a[i + |a| / 2])
  }

  function Upper(a: seq<int>, s: int): (r: seq<int>)
    ensures |r| == |a| / 2 && forall i | 0 <= i < |a| / 2 :: r[i] == a[i] - s * a[i + |a| / 2]
  {
    seq(|a| / 2, i requires 0 <= i < |a| / 2 => a[i] - s * a[i + |a| / 2])
  }

  /** The forward transform of the block at node k, d levels deep. */
  function Forward(a: seq<int>, base: nat, d: nat, k: nat, z: nat -> int): (r: seq<int>)
    requires |a| == Size(base, d)
    ensures |r| == |a|
    decreases d
  {
    if d == 0 then a
    else Forward(Lower(a, z(k)), base, d - 1, 2 * k, z) + Forward(Upper(a, z(k)), base, d - 1, 2 * k + 1, z)
  }

  lemma Distribute(s: int, u: int, v: int)
    ensures s * (u + v) == s * u + s * v && s * (u - v) == s * u - s * v
  {
  }

  lemma LowerPlus(a: seq<int>, b: seq<int>, s: int)
    requires |a| == |b|
    ensures Lower(Plus(a, b), s) == Plus(Lower(a, s), Lower(b, s))
    ensures Upper(Plus(a, b), s) == Plus(Upper(a, s), Upper(b, s))
  {
    forall i | 0 <= i < |a| / 2
      ensures Lower(Plus(a, b), s)[i] == Plus(Lower(a, s), Lower(b, s))[i]
      ensures Upper(Plus(a, b), s)[i] == Plus(Upper(a, s), Upper(b, s))[i]
    {
      Distribute(s, a[i + |a| / 2], b[i + |a| / 2]);
    }
  }

  /** The transform of a sum is the sum of the transforms. */
  lemma {:induction false} ForwardPlus(a: seq<int>, b: seq<int>, base: nat, d: nat, k: nat, z: nat -> int)
    requires |a| == |b| == Size(base, d)
    ensures Forward(Plus(a, b), base, d, k, z) == Plus(Forward(a, base, d, k, z), Forward(b, base, d, k, z))
    decreases d
  {
    hide Lower, Upper;
    if d > 0 {
      LowerPlus(a, b, z(k));
      ForwardPlus(Lower(a, z(k)), Lower(b, z(k)), base, d - 1, 2 * k, z);
      ForwardPlus(Upper(a, z(k)), Upper(b, z(k)), base, d - 1, 2 * k + 1, z);
    }
  }

  lemma LowerCong(a: seq<int>, b: seq<int>, s: int, q: int)
    requires 0 < q && CongSeq(a, b, q)
    ensures CongSeq(Lower(a, s), Lower(b, s), q) && CongSeq(Upper(a, s), Upper(b, s), q)
  {
    forall i | 0 <= i < |a| / 2
      ensures Cong(Lower(a, s)[i], Lower(b, s)[i], q) && Cong(Upper(a, s)[i], Upper(b, s)[i], q)
    {
      var h := |a| / 2;
      CongScale(s, a[i + h], b[i + h], q);
      CongAdd(a[i], b[i], s * a[i + h], s * b[i + h], q);
      CongSub(a[i], b[i], s * a[i + h], s * b[i + h], q);
    }
  }

  lemma CongSeqAppend(a: seq<int>, b: seq<int>, c: seq<int>, e: seq<int>, q: int)
    requires 0 < q && CongSeq(a, b, q) && CongSeq(c, e, q)
    ensures CongSeq(a + c, b + e, q)
  {
  }

  lemma CongSeqTrans(a: seq<int>, b: seq<int>, c: seq<int>, q: int)
    requires 0 < q && CongSeq(a, b, q) && CongSeq(b, c, q)
    ensures CongSeq(a, c, q)
  {
    forall i | 0 <= i < |a| ensures Cong(a[i], c[i], q) { CongTrans(a[i], b[i], c[i], q); }
  }

  lemma CongSeqRefl(a: seq<int>, q: int)
    requires 0 < q
    ensures CongSeq(a, a, q)
  {
    forall i | 0 <= i < |a| ensures Cong(a[i], a[i], q) { CongRefl(a[i], q); }
  }

  lemma CongSeqSym(a: seq<int>, b: seq<int>, q: int)
    requires 0 < q && CongSeq(a, b, q)
    ensures CongSeq(b, a, q)
  {
    forall i | 0 <= i < |a| ensures Cong(b[i], a[i], q) { CongSym(a[i], b[i], q); }
  }

  lemma CongSeqPlus(a: seq<int>, b: seq<int>, c: seq<int>, e: seq<int>, q: int)
    requires 0 < q && CongSeq(a, b, q) && CongSeq(c, e, q) && |a| == |c|
    ensures CongSeq(Plus(a, c), Plus(b, e), q)
  {
    forall i | 0 <= i < |a| ensures Cong(Plus(a, c)[i], Plus(b, e)[i], q) { CongAdd(a[i], b[i], c[i], e[i], q); }
  }

  lemma {:induction false} ForwardCong(a: seq<int>, b: seq<int>, base: nat, d: nat, k: nat, z: nat -> int, q: int)
    requires 0 < q && |a| == Size(base, d) && CongSeq(a, b, q)
    ensures CongSeq(Forward(a, base, d, k, z), Forward(b, base, d, k, z), q)
    decreases d
  {
    hide Lower, Upper, CongSeq;
    CongSeqLength(a, b, q);
    if d > 0 {
      LowerCong(a, b, z(k), q);
      ForwardCong(Lower(a, z(k)), Lower(b, z(k)), base, d - 1, 2 * k, z, q);
      ForwardCong(Upper(a, z(k)), Upper(b, z(k)), base, d - 1, 2 * k + 1, z, q);
      CongSeqAppend(Forward(Lower(a, z(k)), base, d - 1, 2 * k, z), Forward(Lower(b, z(k)), base, d - 1, 2 * k, z),
        Forward(Upper(a, z(k)), base, d - 1, 2 * k + 1, z), Forward(Upper(b, z(k)), base, d - 1, 2 * k + 1, z), q);
    }
  }

  lemma CongSeqLength(a: seq<int>, b: seq<int>, q: int)
    requires 0 < q && CongSeq(a, b, q)
    ensures |a| == |b|
  {
  }

  // ------------------------------------------------------------ inverse

  function Diff(lo: seq<int>, hi: seq<int>, s: int): (r: seq<int>)
    requires |lo| == |hi|
    ensures |r| == |lo| && forall i | 0 <= i < |lo| :: r[i] == s * (lo[i] - hi[i])
  {
    seq(|lo|, i requires 0 <= i < |lo| => s * (lo[i] - hi[i]))
  }

  /** Undo one split: sums in the lower half, scaled differences in the upper. */
  function Merge(lo: seq<int>, hi: seq<int>, s: int): (r: seq<int>)
    requires |lo| == |hi|
    ensures |r| == 2 * |lo|
  {
    Plus(lo, hi) + Diff(lo, hi, s)
  }

  /** The inverse transform, without the division by the number of leaves. */
  function Inverse(r: seq<int>, base: nat, d: nat, k: nat, zi: nat -> int): (a: seq<int>)
    requires |r| == Size(base, d)
    ensures |a| == |r|
    decreases d
  {
    if d == 0 then r
    else
      var h := |r| / 2;
      Merge(Inverse(r[..h], base, d - 1, 2 * k, zi), Inverse(r[h..], base, d - 1, 2 * k + 1, zi), zi(k))
  }

  lemma PlusAppend(a: seq<int>, b: seq<int>, c: seq<int>, e: seq<int>)
    requires |a| == |c| && |b| == |e|
    ensures Plus(a + b, c + e) == Plus(a, c) + Plus(b, e)
  {
  }

  lemma MergePlus(lo: seq<int>, hi: seq<int>, lo': seq<int>, hi': seq<int>, s: int)
    requires |lo| == |hi| == |lo'| == |hi'|
    ensures Merge(Plus(lo, lo'), Plus(hi, hi'), s) == Plus(Merge(lo, hi, s), Merge(lo', hi', s))
  {
    forall i | 0 <= i < |lo|
      ensures Diff(Plus(lo, lo'), Plus(hi, hi'), s)[i] == Plus(Diff(lo, hi, s), Diff(lo', hi', s))[i]
    {
      Distribute(s, lo[i] - hi[i], lo'[i] - hi'[i]);
    }
    assert Diff(Plus(lo, lo'), Plus(hi, hi'), s) == Plus(Diff(lo, hi, s), Diff(lo', hi', s));
    assert Plus(Plus(lo, lo'), Plus(hi, hi')) == Plus(Plus(lo, hi), Plus(lo', hi'));
    PlusAppend(Plus(lo, hi), Diff(lo, hi, s), Plus(lo', hi'), Diff(lo', hi', s));
  }

  lemma PlusHalves(a: seq<int>, b: seq<int>, h: nat)
    requires |a| == |b| && h <= |a|
    ensures Plus(a, b)[..h] == Plus(a[..h], b[..h]) && Plus(a, b)[h..] == Plus(a[h..], b[h..])
  {
  }

  lemma {:induction false} InversePlus(a: seq<int>, b: seq<int>, base: nat, d: nat, k: nat, zi: nat -> int)
    requires |a| == |b| == Size(base, d)
    ensures Inverse(Plus(a, b), base, d, k, zi) == Plus(Inverse(a, base, d, k, zi), Inverse(b, base, d, k, zi))
    decreases d
  {
    hide Merge, Plus;
    if d > 0 {
      var h := |a| / 2;
      PlusHalves(a, b, h);
      InversePlus(a[..h], b[..h], base, d - 1, 2 * k, zi);
      InversePlus(a[h..], b[h..], base, d - 1, 2 * k + 1, zi);
      MergePlus(Inverse(a[..h], base, d - 1, 2 * k, zi), Inverse(a[h..], base, d - 1, 2 * k + 1, zi),
        Inverse(b[..h], base, d - 1, 2 * k, zi), Inverse(b[h..], base, d - 1, 2 * k + 1, zi), zi(k));
    }
  }

  lemma MergeCong(lo: seq<int>, hi: seq<int>, lo': seq<int>, hi': seq<int>, s: int, q: int)
    requires 0 < q && |lo| == |hi| && CongSeq(lo, lo', q) && CongSeq(hi, hi', q)
    ensures CongSeq(Merge(lo, hi, s), Merge(lo', hi', s), q)
  {
    CongSeqPlus(lo, lo', hi, hi', q);
    forall i | 0 <= i < |lo|
      ensures Cong(Diff(lo, hi, s)[i], Diff(lo', hi', s)[i], q)
    {
      CongSub(lo[i], lo'[i], hi[i], hi'[i], q);
      CongScale(s, lo[i] - hi[i], lo'[i] - hi'[i], q);
    }
    hide Plus, Diff;
    CongSeqAppend(Plus(lo, hi), Plus(lo', hi'), Diff(lo, hi, s), Diff(lo', hi', s), q);
  }

  lemma CongSeqCut(a: seq<int>, b: seq<int>, h: nat, q: int)
    requires 0 < q && h <= |a| && CongSeq(a, b, q)
    ensures |a| == |b| && CongSeq(a[..h], b[..h], q) && CongSeq(a[h..], b[h..], q)
  {
  }

  lemma {:induction false} InverseCong(a: seq<int>, b: seq<int>, base: nat, d: nat, k: nat, zi: nat -> int, q: int)
    requires 0 < q && |a| == |b| == Size(base, d) && CongSeq(a, b, q)
    ensures CongSeq(Inverse(a, base, d, k, zi), Inverse(b, base, d, k, zi), q)
    decreases d
  {
    hide Merge, CongSeq;
    if d > 0 {
      var h := |a| / 2;
      CongSeqCut(a, b, h, q);
      InverseCong(a[..h], b[..h], base, d - 1, 2 * k, zi, q);
      InverseCong(a[h..], b[h..], base, d - 1, 2 * k + 1, zi, q);
      MergeCong(Inverse(a[..h], base, d - 1, 2 * k, zi), Inverse(a[h..], base, d - 1, 2 * k + 1, zi),
        Inverse(b[..h], base, d - 1, 2 * k, zi), Inverse(b[h..], base, d - 1, 2 * k + 1, zi), zi(k), q);
    }
  }

  lemma ScaleCong(s: int, a: seq<int>, b: seq<int>, q: int)
    requires 0 < q && CongSeq(a, b, q)
    ensures CongSeq(Scale(s, a), Scale(s, b), q)
  {
    forall i | 0 <= i < |a| ensures Cong(s * a[i], s * b[i], q) { CongScale(s, a[i], b[i], q); }
  }

  // ------------------------------------------------------------ the two undo each other

  ghost predicate Reciprocal(z: nat -> int, zi: nat -> int, q: int)
    requires 0 < q
  {
    forall k: nat | 1 <= k :: Cong(zi(k) * z(k), 1, q)
  }

  lemma MergeSplitAt(u: int, v: int, c: int, s: int, t: int, q: int)
    requires 0 < q && Cong(t * s, 1, q)
    ensures c * (u + s * v) + c * (u - s * v) == 2 * c * u
    ensures Cong(t * (c * (u + s * v) - c * (u - s * v)), 2 * c * v, q)
  {
    Distribute(c, u, s * v);
    assert t * (2 * (c * (s * v))) == (2 * c * v) * (t * s);
    CongScale(2 * c * v, t * s, 1, q);
  }

  /** One merge of the two halves of a split doubles every coefficient. */
  lemma MergeSplit(a: seq<int>, c: int, s: int, t: int, q: int)
    requires 0 < q && |a| % 2 == 0 && Cong(t * s, 1, q)
    ensures CongSeq(Merge(Scale(c, Lower(a, s)), Scale(c, Upper(a, s)), t), Scale(2 * c, a), q)
  {
    var h := |a| / 2;
    var lo, hi := Scale(c, Lower(a, s)), Scale(c, Upper(a, s));
    forall i | 0 <= i < h
      ensures Cong(Plus(lo, hi)[i], Scale(2 * c, a[..h])[i], q)
      ensures Cong(Diff(lo, hi, t)[i], Scale(2 * c, a[h..])[i], q)
    {
      MergeSplitAt(a[i], a[i + h], c, s, t, q);
      CongRefl(2 * c * a[i], q);
    }
    hide Plus, Diff, Lower, Upper;
    CongSeqAppend(Plus(lo, hi), Scale(2 * c, a[..h]), Diff(lo, hi, t), Scale(2 * c, a[h..]), q);
    ScaleAppend(2 * c, a[..h], a[h..]);
    assert a[..h] + a[h..] == a;
  }

  lemma ScaleAppend(c: int, a: seq<int>, b: seq<int>)
    ensures Scale(c, a + b) == Scale(c, a) + Scale(c, b)
  {
  }

  lemma ScaleScale(c: int, e: int, a: seq<int>)
    ensures Scale(c, Scale(e, a)) == Scale(c * e, a)
  {
    forall i | 0 <= i < |a| ensures Scale(c, Scale(e, a))[i] == Scale(c * e, a)[i] {
      assert c * (e * a[i]) == (c * e) * a[i];
    }
  }

  /** Inverse after forward multiplies by the number of leaves. */
  lemma {:induction false} InverseForward(a: seq<int>, base: nat, d: nat, k: nat, z: nat -> int, zi: nat -> int, q: int)
    requires 0 < q && |a| == Size(base, d) && 1 <= k && Reciprocal(z, zi, q)
    ensures CongSeq(Inverse(Forward(a, base, d, k, z), base, d, k, zi), Scale(Pow2(d), a), q)
    decreases d
  {
    hide Merge, Lower, Upper, CongSeq, Scale;
    if d == 0 {
      assert Scale(1, a) == a;
      CongSeqRefl(a, q);
    } else {
      var lo, hi := Lower(a, z(k)), Upper(a, z(k));
      var f, g := Forward(lo, base, d - 1, 2 * k, z), Forward(hi, base, d - 1, 2 * k + 1, z);
      InverseForward(lo, base, d - 1, 2 * k, z, zi, q);
      InverseForward(hi, base, d - 1, 2 * k + 1, z, zi, q);
      assert (f + g)[..|a| / 2] == f && (f + g)[|a| / 2..] == g;
      var c := Pow2(d - 1);
      MergeCong(Inverse(f, base, d - 1, 2 * k, zi), Inverse(g, base, d - 1, 2 * k + 1, zi), Scale(c, lo),
        Scale(c, hi), zi(k), q);
      MergeSplit(a, c, z(k), zi(k), q);
      CongSeqTrans(Inverse(Forward(a, base, d, k, z), base, d, k, zi), Merge(Scale(c, lo), Scale(c, hi), zi(k)),
        Scale(2 * c, a), q);
    }
  }

  lemma SplitMergeAt(u: int, v: int, s: int, t: int, q: int)
    requires 0 < q && Cong(t * s, 1, q)
    ensures Cong(u + v + s * (t * (u - v)), 2 * u, q) && Cong(u + v - s * (t * (u - v)), 2 * v, q)
  {
    assert s * (t * (u - v)) == (u - v) * (t * s);
    CongScale(u - v, t * s, 1, q);
    CongRefl(u + v, q);
    CongAdd(u + v, u + v, s * (t * (u - v)), u - v, q);
    CongSub(u + v, u + v, s * (t * (u - v)), u - v, q);
  }

  lemma MergeAt(lo: seq<int>, hi: seq<int>, t: int)
    requires |lo| == |hi|
    ensures forall i | 0 <= i < |lo| ::
      Merge(lo, hi, t)[i] == lo[i] + hi[i] && Merge(lo, hi, t)[i + |lo|] == t * (lo[i] - hi[i])
  {
  }

  /** Splitting a merge doubles each half. */
  lemma SplitMerge(lo: seq<int>, hi: seq<int>, s: int, t: int, q: int)
    requires 0 < q && |lo| == |hi| && Cong(t * s, 1, q)
    ensures CongSeq(Lower(Merge(lo, hi, t), s), Scale(2, lo), q)
    ensures CongSeq(Upper(Merge(lo, hi, t), s), Scale(2, hi), q)
  {
    SplitMergeLow(lo, hi, s, t, q);
    SplitMergeHigh(lo, hi, s, t, q);
  }

  lemma SplitMergeLow(lo: seq<int>, hi: seq<int>, s: int, t: int, q: int)
    requires 0 < q && |lo| == |hi| && Cong(t * s, 1, q)
    ensures CongSeq(Lower(Merge(lo, hi, t), s), Scale(2, lo), q)
  {
    hide Merge, Cong, Lower, Scale;
    var x, y := Lower(Merge(lo, hi, t), s), Scale(2, lo);
    forall i | 0 <= i < |lo| ensures Cong(x[i], y[i], q) {
      SplitMergeAt(lo[i], hi[i], s, t, q);
      SplitMergeValue(lo, hi, s, t, i);
    }
  }

  lemma SplitMergeValue(lo: seq<int>, hi: seq<int>, s: int, t: int, i: nat)
    requires |lo| == |hi| && i < |lo|
    ensures Lower(Merge(lo, hi, t), s)[i] == lo[i] + hi[i] + s * (t * (lo[i] - hi[i])) && Scale(2, lo)[i] == 2 * lo[i]
    ensures Upper(Merge(lo, hi, t), s)[i] == lo[i] + hi[i] - s * (t * (lo[i] - hi[i])) && Scale(2, hi)[i] == 2 * hi[i]
  {
    var m := Merge(lo, hi, t);
    MergeIndex(lo, hi, t, i);
    hide Merge;
    LowerIndex(m, s, i);
    hide Lower, Upper;
    assert Scale(2, lo)[i] == 2 * lo[i] && Scale(2, hi)[i] == 2 * hi[i];
  }

  lemma MergeIndex(lo: seq<int>, hi: seq<int>, t: int, i: nat)
    requires |lo| == |hi| && i < |lo|
    ensures |Merge(lo, hi, t)| == 2 * |lo| && Merge(lo, hi, t)[i] == lo[i] + hi[i]
    ensures Merge(lo, hi, t)[i + |lo|] == t * (lo[i] - hi[i])
  {
  }

  lemma LowerIndex(m: seq<int>, s: int, i: nat)
    requires i < |m| / 2
    ensures Lower(m, s)[i] == m[i] + s * m[i + |m| / 2] && Upper(m, s)[i] == m[i] - s * m[i + |m| / 2]
  {
  }

  lemma SplitMergeHigh(lo: seq<int>, hi: seq<int>, s: int, t: int, q: int)
    requires 0 < q && |lo| == |hi| && Cong(t * s, 1, q)
    ensures CongSeq(Upper(Merge(lo, hi, t), s), Scale(2, hi), q)
  {
    hide Merge, Cong, Upper, Scale;
    var x, y := Upper(Merge(lo, hi, t), s), Scale(2, hi);
    forall i | 0 <= i < |lo| ensures Cong(x[i], y[i], q) {
      SplitMergeAt(lo[i], hi[i], s, t, q);
      SplitMergeValue(lo, hi, s, t, i);
    }
  }

  lemma {:induction false} ForwardScale(s: int, a: seq<int>, base: nat, d: nat, k: nat, z: nat -> int)
    requires |a| == Size(base, d)
    ensures Forward(Scale(s, a), base, d, k, z) == Scale(s, Forward(a, base, d, k, z))
    decreases d
  {
    hide Lower, Upper;
    if d > 0 {
      LowerScale(s, a, z(k));
      ForwardScale(s, Lower(a, z(k)), base, d - 1, 2 * k, z);
      ForwardScale(s, Upper(a, z(k)), base, d - 1, 2 * k + 1, z);
    }
  }

  lemma ScaleInside(c: int, u: int, v: int, s: int)
    ensures c * u + s * (c * v) == c * (u + s * v) && c * u - s * (c * v) == c * (u - s * v)
  {
    assert s * (c * v) == c * (s * v);
    Distribute(c, u, s * v);
  }

  lemma LowerScale(c: int, a: seq<int>, s: int)
    ensures Lower(Scale(c, a), s) == Scale(c, Lower(a, s)) && Upper(Scale(c, a), s) == Scale(c, Upper(a, s))
  {
    forall i | 0 <= i < |a| / 2
      ensures Lower(Scale(c, a), s)[i] == Scale(c, Lower(a, s))[i] &&
        Upper(Scale(c, a), s)[i] == Scale(c, Upper(a, s))[i]
    {
      ScaleInside(c, a[i], a[i + |a| / 2], s);
    }
  }

  /** Forward after inverse multiplies by the number of leaves. */
  lemma {:induction false} ForwardInverse(r: seq<int>, base: nat, d: nat, k: nat, z: nat -> int, zi: nat -> int, q: int)
    requires 0 < q && |r| == Size(base, d) && 1 <= k && Reciprocal(z, zi, q)
    ensures CongSeq(Forward(Inverse(r, base, d, k, zi), base, d, k, z), Scale(Pow2(d), r), q)
    decreases d
  {
    hide Merge, Lower, Upper, CongSeq;
    if d == 0 {
      assert Scale(1, r) == r;
      CongSeqRefl(r, q);
    } else {
      var h := |r| / 2;
      var lo, hi := Inverse(r[..h], base, d - 1, 2 * k, zi), Inverse(r[h..], base, d - 1, 2 * k + 1, zi);
      SplitMerge(lo, hi, z(k), zi(k), q);
      ForwardInverseHalf(r[..h], Lower(Merge(lo, hi, zi(k)), z(k)), base, d, 2 * k, z, zi, q);
      ForwardInverseHalf(r[h..], Upper(Merge(lo, hi, zi(k)), z(k)), base, d, 2 * k + 1, z, zi, q);
      CongSeqAppend(Forward(Lower(Merge(lo, hi, zi(k)), z(k)), base, d - 1, 2 * k, z), Scale(Pow2(d), r[..h]),
        Forward(Upper(Merge(lo, hi, zi(k)), z(k)), base, d - 1, 2 * k + 1, z), Scale(Pow2(d), r[h..]), q);
      ScaleAppend(Pow2(d), r[..h], r[h..]);
      assert r[..h] + r[h..] == r;
    }
  }

  lemma ForwardInverseHalf(r: seq<int>, x: seq<int>, base: nat, d: nat, k: nat, z: nat -> int, zi: nat -> int, q: int)
    requires 0 < q && 0 < d && |r| == |x| == Size(base, d - 1) && 1 <= k && Reciprocal(z, zi, q)
    requires CongSeq(x, Scale(2, Inverse(r, base, d - 1, k, zi)), q)
    ensures CongSeq(Forward(x, base, d - 1, k, z), Scale(Pow2(d), r), q)
    decreases d, 0
  {
    hide CongSeq, Scale, Lower, Upper, Merge;
    var v := Inverse(r, base, d - 1, k, zi);
    ForwardCong(x, Scale(2, v), base, d - 1, k, z, q);
    ForwardScale(2, v, base, d - 1, k, z);
    ForwardInverse(r, base, d - 1, k, z, zi, q);
    ScaleCong(2, Forward(v, base, d - 1, k, z), Scale(Pow2(d - 1), r), q);
    ScaleScale(2, Pow2(d - 1), r);
    CongSeqTrans(Forward(x, base, d - 1, k, z), Scale(2, Forward(v, base, d - 1, k, z)), Scale(Pow2(d), r), q);
  }
}
