/** ML-KEM's two in-place transforms on 256 16-bit words: seven layers, down to pairs. */
module MlKemNtt {
  import opened ModArith
  import opened NttTree
  import opened NegacyclicRing
  import opened ZetaTree
  import opened NttLoop
  import opened MlKemArith

  const LAYERS: nat := 7

  lemma KShape(d: nat)
    requires d == 7
    ensures Size(2, d) == 256 && Pow2(d) == 128
  {
    SizeIsProduct(2, 7);
    Seven();
  }

  /** What the forward code computes, mod q: 128 residues modulo X^2 - zeta. */
  function KHat(a: seq<int>): (r: seq<int>)
    requires |a| == 256
    ensures |r| == 256
  {
    KShape(LAYERS);
    Forward(a, 2, LAYERS, 1, KZ())
  }

  /** 128^-1 mod q. */
  const KNINV: int := 3303

  function KInverseOf(r: seq<int>): (a: seq<int>)
    requires |r| == 256
    ensures |a| == 256
  {
    KShape(LAYERS);
    Inverse(r, 2, LAYERS, 1, KZI())
  }

  /** The true inverse transform, mod q. */
  function KUnhat(r: seq<int>): (a: seq<int>)
    requires |r| == 256
    ensures |a| == 256
  {
    Scale(KNINV, KInverseOf(r))
  }

  // ------------------------------------------------------------ forward

  /** How much one forward layer may add to a coefficient. */
  const KGROW: int := 2342

  lemma KTwiddleCong(zeta: int, zc: int, x: int)
    requires Cong(zeta, KR * zc, KQ) && Cong(MontReduce16(zeta * x), zeta * x * KRINV, KQ)
    ensures Cong(MontReduce16(zeta * x), zc * x, KQ)
  {
    hide MontReduce16;
    CongScale(x * KRINV, zeta, KR * zc, KQ);
    assert zeta * x * KRINV == (x * KRINV) * zeta && (x * KRINV) * (KR * zc) == (zc * x) * (KR * KRINV);
    CongIntro(KR * KRINV, 1, KQ, (KR * KRINV - 1) / KQ);
    CongScale(zc * x, KR * KRINV, 1, KQ);
    CongTrans(zeta * x * KRINV, (zc * x) * (KR * KRINV), zc * x, KQ);
    CongTrans(MontReduce16(zeta * x), zeta * x * KRINV, zc * x, KQ);
  }

  lemma KTwiddle(zeta: int, zc: int, x: int)
    requires -1664 <= zeta <= 1664 && Cong(zeta, KR * zc, KQ) && -8 * KQ <= x <= 8 * KQ
    ensures -KGROW <= MontReduce16(zeta * x) <= KGROW && Cong(MontReduce16(zeta * x), zc * x, KQ)
  {
    hide Cong, MontReduce16;
    ProductRange(zeta, x, 1664, 8 * KQ);
    MontBound16(zeta * x, 677);
    MontFacts16(zeta * x);
    KTwiddleCong(zeta, zc, x);
  }

  /** The butterfly of x and y, within the bound. */
  ghost predicate KMixed(x': int, y': int, x: int, y: int, zc: int, b: int) {
    Cong(x', x + zc * y, KQ) && Cong(y', x - zc * y, KQ) && -b <= x' <= b && -b <= y' <= b
  }

  lemma KMixedBy(x: int, y: int, zeta: int, zc: int, bound: int)
    requires -1664 <= zeta <= 1664 && Cong(zeta, KR * zc, KQ)
    requires -bound <= x <= bound && -bound <= y <= bound && bound <= 8 * KQ
    ensures var t := MontReduce16(zeta * y);
      KMixed(x + t, x - t, x, y, zc, bound + KGROW) && -KQ < t < KQ
  {
    hide Cong, MontReduce16;
    KTwiddle(zeta, zc, y);
    var t := MontReduce16(zeta * y);
    CongRefl(x, KQ);
    CongAdd(x, x, t, zc * y, KQ);
    CongSub(x, x, t, zc * y, KQ);
  }

  method KButterflies(a: array<int16>, start: nat, len: nat, zeta: int16, ghost zc: int, ghost bound: int)
    requires a.Length == 256 && start + 2 * len <= 256
    requires -1664 <= zeta <= 1664 && Cong(zeta, KR * zc, KQ) && bound <= 8 * KQ
    requires forall i | start <= i < start + 2 * len :: -bound <= a[i] <= bound
    modifies a
    ensures forall i | start <= i < start + len :: KMixed(a[i], a[i + len], old(a[i]), old(a[i + len]), zc,
              bound + KGROW)
    ensures a[..start] == old(a[..start]) && a[start + 2 * len..] == old(a[start + 2 * len..])
  {
    hide Cong, MontReduce16, KMixed;
    var j := start;
    while j < start + len
      invariant start <= j <= start + len
      invariant forall i | 0 <= i < 256 && !(start <= i < j) && !(start + len <= i < j + len) :: a[i] == old(a[i])
      invariant forall i | start <= i < j :: KMixed(a[i], a[i + len], old(a[i]), old(a[i + len]), zc, bound + KGROW)
    {
      KMixedBy(a[j], a[j + len], zeta, zc, bound);
      var t := MontReduce16(zeta * a[j + len]);
      a[j + len] := a[j] - t;
      a[j] := a[j] + t;
      j := j + 1;
    }
  }

  lemma KBlockMixed(n: seq<int>, o: seq<int>, zc: int, b: int, len: nat)
    requires |n| == |o| == 2 * len
    requires forall i | 0 <= i < len :: KMixed(n[i], n[i + len], o[i], o[i + len], zc, b)
    ensures CongSeq(n[..len], Lower(o, zc), KQ) && CongSeq(n[len..], Upper(o, zc), KQ) && Within(n, b)
  {
    hide Cong;
    forall i | 0 <= i < 2 * len ensures -b <= n[i] <= b {
      var j := if i < len then i else i - len;
      assert KMixed(n[j], n[j + len], o[j], o[j + len], zc, b);
    }
    forall i | 0 <= i < len
      ensures Cong(n[..len][i], Lower(o, zc)[i], KQ) && Cong(n[len..][i], Upper(o, zc)[i], KQ)
    {
      assert KMixed(n[i], n[i + len], o[i], o[i + len], zc, b);
    }
  }

  /** What the forward loops keep: the array cut at `start`. */
  ghost predicate KSplitting(a: seq<int>, start: nat, l: nat, m: nat, t: seq<int>) {
    start <= |a| && l < 7
    && InForward(a[..start], a[start..], 2, 7 - l, Pow2(l), m, KZ(), t, KQ, KQ + l * KGROW, KQ + (l + 1) * KGROW)
  }

  lemma KSplittingBlock(o: seq<int>, n: seq<int>, start: nat, len: nat, l: nat, m: nat, t: seq<int>)
    requires KSplitting(o, start, l, m, t) && m < Pow2(l) && 2 * len == Size(2, 7 - l)
    requires |n| == |o| && start + 2 * len <= |o| && n[..start] == o[..start] &&
      n[start + 2 * len..] == o[start + 2 * len..]
    requires (forall i | start <= i < start + len ::
      KMixed(n[i], n[i + len], o[i], o[i + len], KZ()(Pow2(l) + m), KQ + (l + 1) * KGROW))
    ensures KSplitting(n, start + 2 * len, l, m + 1, t)
  {
    hide KMixed, InForward, Size, Pow2, Lower, Upper, CongSeq, Within, KZ;
    var e := start + 2 * len;
    var block, split := o[start..e], n[start..e];
    assert o[start..] == block + o[e..];
    forall i | 0 <= i < len
      ensures KMixed(split[i], split[i + len], block[i], block[i + len], KZ()(Pow2(l) + m), KQ + (l + 1) * KGROW)
    {
      assert split[i] == n[start + i] && block[i] == o[start + i];
    }
    KBlockMixed(split, block, KZ()(Pow2(l) + m), KQ + (l + 1) * KGROW, len);
    var lo, hi := split[..len], split[len..];
    assert lo + hi == split;
    ForwardBlock(o[..start], block, o[e..], lo, hi, 2, 7 - l, Pow2(l), m, KZ(), t, KQ, KQ + l * KGROW,
      KQ + (l + 1) * KGROW);
    assert n[..e] == o[..start] + split;
  }

  lemma KSplittingRoom(a: seq<int>, start: nat, len: nat, l: nat, m: nat, t: seq<int>)
    requires KSplitting(a, start, l, m, t) && |a| == 256 && 2 * len == Size(2, 7 - l)
    ensures start < 256 ==> m < Pow2(l) && start + 2 * len <= 256 && 1 <= Pow2(l) + m < 128
    ensures start >= 256 ==> m == Pow2(l) && start == 256
    ensures forall i | start <= i < 256 :: -(KQ + l * KGROW) <= a[i] <= KQ + l * KGROW
  {
    hide InForward, Size, Pow2;
    SizePositive(2, 7 - l);
    ForwardRoom(a[..start], a[start..], 2, 7 - l, Pow2(l), m, KZ(), t, KQ, KQ + l * KGROW, KQ + (l + 1) * KGROW);
    Pow2Mono(l, 6);
    Seven();
    KRoomWithin(a, start, l, m, t);
  }

  lemma KRoomWithin(a: seq<int>, start: nat, l: nat, m: nat, t: seq<int>)
    requires KSplitting(a, start, l, m, t)
    ensures forall i | start <= i < |a| :: -(KQ + l * KGROW) <= a[i] <= KQ + l * KGROW
  {
    hide Passing;
    forall i | start <= i < |a| ensures -(KQ + l * KGROW) <= a[i] <= KQ + l * KGROW {
      assert a[start..][i - start] == a[i];
    }
  }

  lemma KSplittingStart(a: seq<int>, d: nat)
    requires d == 7 && |a| == 256 && Within(a, KQ)
    ensures KSplitting(a, 0, 0, 0, KHat(a)) && Size(2, d) == 256
  {
    hide InForward, Within, Forward, KZ;
    KShape(d);
    ForwardStart(a, 2, d, KZ(), KQ, KQ, KQ + KGROW);
    assert a[..0] == [] && a[0..] == a;
    Seven();
  }

  lemma KSplittingLevel(a: seq<int>, l: nat, t: seq<int>)
    requires |a| == 256 && KSplitting(a, 256, l, Pow2(l), t)
    ensures l < 6 ==> KSplitting(a, 0, l + 1, 0, t)
    ensures l == 6 ==> CongSeq(a, t, KQ) && Within(a, 8 * KQ)
    ensures Pow2(l + 1) == 2 * Pow2(l)
  {
    hide InForward, Within, KZ, CongSeq;
    assert a[..256] == a && a[256..] == [] && a[..0] == [] && a[0..] == a;
    ForwardLevel(a, 2, 7 - l, Pow2(l), KZ(), t, KQ, KQ + l * KGROW, KQ + (l + 1) * KGROW, KQ + (l + 2) * KGROW);
    if l == 6 { WithinWider(a, KQ + 7 * KGROW, 8 * KQ); }
  }

  /** Half a block at the next level. */
  lemma KNextLen(len: nat, l: nat)
    requires l < 7 && 2 * len == Size(2, 7 - l)
    ensures l < 6 ==> 2 * (len / 2) == Size(2, 6 - l) && len / 2 >= 2
    ensures l == 6 ==> len / 2 == 1
  {
    SizeIsProduct(2, 7 - l);
    Pow2Double(7 - l);
    if l < 6 { Pow2Double(6 - l); SizeIsProduct(2, 6 - l); }
  }

  /** The forward layers, before the closing reduction. */
  method KForwardLayers(a: array<int16>, z: seq<int>)
    requires a.Length == 256 && KZetaTable(z) && Within(a[..], KQ)
    modifies a
    ensures CongSeq(a[..], KHat(old(a[..])), KQ) && Within(a[..], 8 * KQ)
  {
    hide Pow2, Size, KSplitting, CongSeq, KHat, Within, KMixed, KZ, KZetaTable;
    ghost var t := KHat(a[..]);
    KSplittingStart(a[..], 7);
    Seven();
    var k := 1;
    var len := 128;
    ghost var l := 0;
    while len >= 2
      invariant l <= 7 && k == Pow2(l)
      invariant len >= 2 <==> l < 7
      invariant l < 7 ==> 2 * len == Size(2, 7 - l) && KSplitting(a[..], 0, l, 0, t)
      invariant l == 7 ==> CongSeq(a[..], t, KQ) && Within(a[..], 8 * KQ)
      decreases 7 - l
    {
      var start := 0;
      ghost var m := 0;
      KSplittingRoom(a[..], start, len, l, m, t);
      while start < 256
        invariant k == Pow2(l) + m && KSplitting(a[..], start, l, m, t)
        invariant start < 256 ==> m < Pow2(l) && start + 2 * len <= 256 && 1 <= Pow2(l) + m < 128
        invariant start >= 256 ==> m == Pow2(l) && start == 256
        invariant forall i | start <= i < 256 :: -(KQ + l * KGROW) <= a[i] <= KQ + l * KGROW
        decreases 256 - start
      {
        KTableEntryAt(z, k);
        var zeta := z[k];
        ghost var o := a[..];
        KButterflies(a, start, len, zeta, KZ()(k), KQ + l * KGROW);
        k := k + 1;
        KSplittingBlock(o, a[..], start, len, l, m, t);
        start := start + 2 * len;
        m := m + 1;
        KSplittingRoom(a[..], start, len, l, m, t);
      }
      KSplittingLevel(a[..], l, t);
      KNextLen(len, l);
      len := len / 2;
      l := l + 1;
    }
  }

  lemma KTableEntryAt(z: seq<int>, k: nat)
    requires KZetaTable(z) && 1 <= k < 128
    ensures |z| == 128 && -1664 <= z[k] <= 1664 && Cong(z[k], KR * KZ()(k), KQ)
  {
  }

  /** Every coefficient centred, in place. */
  method ReduceAll(a: array<int16>)
    requires a.Length == 256
    modifies a
    ensures CongSeq(a[..], old(a[..]), KQ) && Within(a[..], 1664)
  {
    hide Cong, Barrett16;
    for i := 0 to 256
      invariant forall k | i <= k < 256 :: a[k] == old(a[k])
      invariant forall k | 0 <= k < i :: -1664 <= a[k] <= 1664 && Cong(a[k], old(a[k]), KQ)
    {
      BarrettContract(a[i]);
      a[i] := Barrett16(a[i]);
    }
  }

  /** Forward transform, in place: inputs up to q, every layer inside int16, outputs centred. */
  method KNtt(a: array<int16>, z: seq<int>)
    requires a.Length == 256 && KZetaTable(z) && Within(a[..], KQ)
    modifies a
    ensures CongSeq(a[..], KHat(old(a[..])), KQ) && Within(a[..], 1664)
  {
    hide CongSeq, KHat, Within, KZetaTable;
    ghost var t := KHat(a[..]);
    KForwardLayers(a, z);
    ghost var b := a[..];
    ReduceAll(a);
    CongSeqTrans(a[..], b, t, KQ);
  }

  // ------------------------------------------------------------ inverse

  /** The table entry met at node w + m, negated, is the reciprocal of that node's constant. */
  lemma KMirrorZeta(lev: nat, m: nat)
    requires lev <= 6 && m < Pow2(lev)
    ensures 1 <= 2 * Pow2(lev) - 1 - m < 128
    ensures Cong(-KZ()(2 * Pow2(lev) - 1 - m), KZI()(Pow2(lev) + m), KQ)
  {
    hide Power, Exp, Pow2, HalfTurn, Cong;
    var w := Pow2(lev);
    KMirrorExp(lev, m);
    KRootHalfTurn();
    var e := Exp(2 * w - 1 - m, 64);
    PowerTurn(KROOT, 64, e, KQ);
    CongSym(Power(KROOT, e + 128), -Power(KROOT, e), KQ);
  }

  lemma KMirrorExp(lev: nat, m: nat)
    requires lev <= 6 && m < Pow2(lev)
    ensures Pow2(lev) <= 64 && 0 < Exp(Pow2(lev) + m, 64) + Exp(2 * Pow2(lev) - 1 - m, 64) == 128
  {
    hide Exp, Pow2;
    Pow2Mono(lev, 6);
    Seven();
    Pow2Add(lev, 6 - lev);
    DivModUnique(64, Pow2(lev), Pow2(6 - lev), 0);
    ExpMirror(lev, Pow2(lev) + m, 64);
  }

  /** How far the inverse layers' coefficients reach. */
  const KINV: int := 1760

  /** The inverse butterfly of x and y, within the bound. */
  ghost predicate KJoined(x': int, y': int, x: int, y: int, zc: int) {
    Cong(x', x + y, KQ) && Cong(y', zc * (x - y), KQ) && -KINV <= x' <= KINV && -KINV <= y' <= KINV
  }

  lemma KJoinedBy(x: int, y: int, zeta: int, zi: int)
    requires -1664 <= zeta <= 1664 && Cong(zeta, KR * -zi, KQ)
    requires -KINV <= x <= KINV && -KINV <= y <= KINV
    ensures KJoined(Barrett16(x + y), MontReduce16(zeta * (y - x)), x, y, zi)
  {
    hide Cong, MontReduce16, Barrett16;
    BarrettContract(x + y);
    ProductRange(zeta, y - x, 1664, 3520);
    MontBound16(zeta * (y - x), 90);
    MontFacts16(zeta * (y - x));
    KTwiddleCong(zeta, -zi, y - x);
    assert (-zi) * (y - x) == zi * (x - y);
  }

  method KUnbutterflies(a: array<int16>, start: nat, len: nat, zeta: int16, ghost zi: int)
    requires a.Length == 256 && start + 2 * len <= 256
    requires -1664 <= zeta <= 1664 && Cong(zeta, KR * -zi, KQ)
    requires forall i | start <= i < start + 2 * len :: -KINV <= a[i] <= KINV
    modifies a
    ensures forall i | start <= i < start + len :: KJoined(a[i], a[i + len], old(a[i]), old(a[i + len]), zi)
    ensures a[..start] == old(a[..start]) && a[start + 2 * len..] == old(a[start + 2 * len..])
  {
    hide Cong, MontReduce16, Barrett16;
    var j := start;
    while j < start + len
      invariant start <= j <= start + len
      invariant forall i | 0 <= i < 256 && !(start <= i < j) && !(start + len <= i < j + len) :: a[i] == old(a[i])
      invariant forall i | start <= i < j :: KJoined(a[i], a[i + len], old(a[i]), old(a[i + len]), zi)
    {
      KJoinedBy(a[j], a[j + len], zeta, zi);
      var t := a[j];
      a[j] := Barrett16(t + a[j + len]);
      a[j + len] := a[j + len] - t;
      a[j + len] := MontReduce16(zeta * a[j + len]);
      j := j + 1;
    }
  }

  lemma KBlockJoined(n: seq<int>, lo: seq<int>, hi: seq<int>, zi: int)
    requires |n| == 2 * |lo| && |lo| == |hi|
    requires forall i | 0 <= i < |lo| :: KJoined(n[i], n[i + |lo|], lo[i], hi[i], zi)
    ensures CongSeq(n, Merge(lo, hi, zi), KQ) && Within(n, KINV)
  {
    var len := |lo|;
    hide Cong;
    MergeAt(lo, hi, zi);
    hide Merge;
    forall i | 0 <= i < 2 * len
      ensures -KINV <= n[i] <= KINV && Cong(n[i], Merge(lo, hi, zi)[i], KQ)
    {
      var j := if i < len then i else i - len;
      assert KJoined(n[j], n[j + len], lo[j], hi[j], zi);
    }
  }

  /** What the inverse loops keep: array and transform cut at `start`. */
  ghost predicate KJoining(a: seq<int>, r: seq<int>, start: nat, l: nat, m: nat) {
    start <= |a| == |r| && l < 7
    && InInverse(a[..start], a[start..], r[..start], r[start..], 2, l + 1, Pow2(6 - l), m, KZI(), KQ, KINV, KINV)
  }

  lemma KJoiningBlock(o: seq<int>, n: seq<int>, r: seq<int>, start: nat, len: nat, l: nat, m: nat)
    requires KJoining(o, r, start, l, m) && m < Pow2(6 - l) && len == Size(2, l)
    requires |n| == |o| && start + 2 * len <= |o| && n[..start] == o[..start] &&
      n[start + 2 * len..] == o[start + 2 * len..]
    requires forall i | start <= i < start + len :: KJoined(n[i], n[i + len], o[i], o[i + len], KZI()(Pow2(6 - l) + m))
    ensures KJoining(n, r, start + 2 * len, l, m + 1)
  {
    hide KJoined, InInverse, Size, Pow2, Merge, CongSeq, Within, KZI;
    var c, e := start + len, start + 2 * len;
    var lo, hi, u, v, split := o[start..c], o[c..e], r[start..c], r[c..e], n[start..e];
    forall i | 0 <= i < len
      ensures KJoined(split[i], split[i + len], lo[i], hi[i], KZI()(Pow2(6 - l) + m))
    {
      assert split[i] == n[start + i] && split[i + len] == n[start + i + len];
      assert lo[i] == o[start + i] && hi[i] == o[start + i + len];
    }
    KBlockJoined(split, lo, hi, KZI()(Pow2(6 - l) + m));
    KCutThree(o, start, c, e);
    KCutThree(r, start, c, e);
    InverseBlock(o[..start], lo, hi, o[e..], split, r[..start], u, v, r[e..], 2, l + 1, Pow2(6 - l), m, KZI(), KQ,
      KINV, KINV);
    assert n[..e] == o[..start] + split;
  }

  lemma KCutThree(a: seq<int>, s: nat, c: nat, e: nat)
    requires s <= c <= e <= |a|
    ensures a[s..] == a[s..c] + a[c..e] + a[e..] && a[..e] == a[..s] + (a[s..c] + a[c..e])
  {
  }

  lemma KJoiningRoom(a: seq<int>, r: seq<int>, start: nat, len: nat, l: nat, m: nat)
    requires KJoining(a, r, start, l, m) && |a| == 256 && len == Size(2, l)
    ensures start < 256 ==> m < Pow2(6 - l) && start + 2 * len <= 256
    ensures start >= 256 ==> m == Pow2(6 - l) && start == 256
    ensures forall i | start <= i < 256 :: -KINV <= a[i] <= KINV
  {
    KJoiningWithin(a, r, start, l, m);
    hide InInverse, Size, Pow2;
    InverseRoom(a[..start], a[start..], r[..start], r[start..], 2, l + 1, Pow2(6 - l), m, KZI(), KQ, KINV, KINV);
  }

  lemma KJoiningWithin(a: seq<int>, r: seq<int>, start: nat, l: nat, m: nat)
    requires KJoining(a, r, start, l, m)
    ensures forall i | start <= i < |a| :: -KINV <= a[i] <= KINV
  {
    hide Merging;
    forall i | start <= i < |a| ensures -KINV <= a[i] <= KINV {
      assert a[start..][i - start] == a[i];
    }
  }

  lemma KJoiningStart(a: seq<int>, d: nat)
    requires d == 7 && |a| == 256 && Within(a, KINV)
    ensures KJoining(a, a, 0, 0, 0) && Size(2, 0) == 2
  {
    hide InInverse, Within, KZI;
    KShape(d);
    Seven();
    InverseStart(a, 2, d, Pow2(6), KZI(), KQ, KINV, KINV);
    assert a[..0] == [] && a[0..] == a;
  }

  lemma KJoiningWhole(a: seq<int>, r: seq<int>, l: nat)
    requires l < 7 && |a| == 256 && KJoining(a, r, 256, l, Pow2(6 - l))
    ensures InInverse(a, [], r, [], 2, l + 1, Pow2(6 - l), Pow2(6 - l), KZI(), KQ, KINV, KINV) && |r| == 256
  {
    hide InInverse, KZI, Pow2;
    assert a[..256] == a && a[256..] == [] && r[..256] == r && r[256..] == [];
  }

  lemma KEvenWidth(n: nat)
    ensures Pow2(n) == 1 <==> n == 0
    ensures n > 0 ==> Pow2(n) % 2 == 0 && Pow2(n) > 1
  {
    if n > 0 { Pow2Double(n); Pow2Mono(0, n - 1); }
  }

  lemma KJoiningLevel(a: seq<int>, r: seq<int>, l: nat)
    requires l < 6 && |a| == 256 && KJoining(a, r, 256, l, Pow2(6 - l))
    ensures KJoining(a, r, 0, l + 1, 0)
  {
    hide InInverse, KZI, Pow2;
    KEvenWidth(6 - l);
    Pow2Double(6 - l);
    KJoiningWhole(a, r, l);
    InverseLevel(a, r, 2, l + 1, Pow2(6 - l), KZI(), KQ, KINV, KINV, KINV);
    assert a[..0] == [] && a[0..] == a && r[..0] == [] && r[0..] == r;
  }

  lemma KJoiningEnd(a: seq<int>, r: seq<int>, l: nat)
    requires l == 6 && |a| == 256 && KJoining(a, r, 256, l, Pow2(6 - l))
    ensures |r| == 256 && CongSeq(a, KInverseOf(r), KQ) && Within(a, KINV)
  {
    hide InInverse, KZI, Pow2, Inverse, CongSeq, Within, Size, KInverseOf;
    KEvenWidth(6 - l);
    KJoiningWhole(a, r, l);
    InverseLevel(a, r, 2, l + 1, Pow2(6 - l), KZI(), KQ, KINV, KINV, KINV);
    KInverseOfIs(r, l + 1);
  }

  lemma KInverseOfIs(r: seq<int>, d: nat)
    requires |r| == 256 && d == 7
    ensures Size(2, d) == 256 && KInverseOf(r) == Inverse(r, 2, d, 1, KZI())
  {
    hide Inverse, KZI;
    KShape(d);
  }

  lemma KJoiningLen(l: nat, len: nat)
    requires l < 7 && len == Size(2, l)
    ensures 2 * len == Size(2, l + 1) && 2 <= len && Pow2(6 - l) == (if l == 6 then 1 else 2 * Pow2(5 - l))
    ensures l < 6 ==> 2 * len <= 128
    ensures l == 6 ==> 2 * len == 256
  {
    SizeIsProduct(2, l);
    Seven();
    Pow2Mono(l, 6);
    Pow2Mono(0, l);
    if l < 6 { Pow2Mono(l, 5); Pow2Double(6 - l); }
  }

  /** The table entry as the inverse loop uses it. */
  lemma KMirrorEntry(z: seq<int>, lev: nat, m: nat, k: int)
    requires KZetaTable(z) && lev <= 6 && m < Pow2(lev) && k == 2 * Pow2(lev) - 1 - m
    ensures 1 <= k < 128 && |z| == 128 && -1664 <= z[k] <= 1664
    ensures Cong(z[k], KR * -KZI()(Pow2(lev) + m), KQ)
  {
    hide Cong, KZ, KZI, Pow2;
    KMirrorZeta(lev, m);
    KNegatedEntry(z[k], KZ()(k), KZI()(Pow2(lev) + m));
  }

  lemma KNegatedEntry(v: int, e: int, i: int)
    requires Cong(v, KR * e, KQ) && Cong(-e, i, KQ)
    ensures Cong(v, KR * -i, KQ)
  {
    hide Cong;
    CongScale(-KR, -e, i, KQ);
    assert (-KR) * (-e) == KR * e && (-KR) * i == KR * -i;
    CongTrans(v, KR * e, KR * -i, KQ);
  }

  /** 2^-7 * 2^32 mod q. */
  const KF: int := 1441

  lemma KFinalScale(x: int)
    requires -KINV <= x <= KINV
    ensures var r := MontReduce16(KF * x);
      -1704 <= r <= 1704 && Cong(r, KR * (KNINV * x), KQ)
  {
    MontBound16(KF * x, 39);
    MontFacts16(KF * x);
    hide MontReduce16, Cong;
    KFinalCong(MontReduce16(KF * x), x);
  }

  lemma KFinalCong(v: int, x: int)
    requires Cong(v, KF * x * KRINV, KQ)
    ensures Cong(v, KR * (KNINV * x), KQ)
  {
    var c, e := KF * KRINV, KR * KNINV;
    CongIntro(c, e, KQ, (c - e) / KQ);
    hide Cong;
    CongScale(x, c, e, KQ);
    assert KF * x * KRINV == x * c && x * e == KR * (KNINV * x);
    CongTrans(v, x * c, x * e, KQ);
  }

  lemma KFinalSeq(n: seq<int>, o: seq<int>, r: seq<int>)
    requires |n| == |o| == |r| == 256 && CongSeq(o, KInverseOf(r), KQ)
    requires forall i | 0 <= i < 256 :: Cong(n[i], KR * (KNINV * o[i]), KQ)
    ensures CongSeq(n, Scale(KR, KUnhat(r)), KQ)
  {
    hide Inverse, Cong, KZI, KInverseOf;
    forall i | 0 <= i < 256 ensures Cong(n[i], Scale(KR, KUnhat(r))[i], KQ) {
      KFinalEntry(n[i], o[i], KInverseOf(r)[i]);
    }
  }

  lemma KFinalEntry(v: int, c: int, x: int)
    requires Cong(v, KR * (KNINV * c), KQ) && Cong(c, x, KQ)
    ensures Cong(v, KR * (KNINV * x), KQ)
  {
    CongScale(KR * KNINV, c, x, KQ);
    assert (KR * KNINV) * c == KR * (KNINV * c) && (KR * KNINV) * x == KR * (KNINV * x);
    CongTrans(v, KR * (KNINV * c), KR * (KNINV * x), KQ);
  }

  /** Inverse transform, in place, back in Montgomery form; nothing leaves int16. */
  method KInvNtt(a: array<int16>, z: seq<int>)
    requires a.Length == 256 && KZetaTable(z) && Within(a[..], KINV)
    modifies a
    ensures CongSeq(a[..], Scale(KR, KUnhat(old(a[..]))), KQ) && Within(a[..], 1704)
  {
    hide Pow2, Size, KJoining, CongSeq, KUnhat, Within, KJoined, KZ, KZI, KZetaTable, KInverseOf, Cong, MontReduce16;
    ghost var r := a[..];
    KJoiningStart(r, 7);
    Seven();
    var k := 127;
    var len := 2;
    ghost var l := 0;
    while len <= 128
      invariant l <= 7 && len == (if l == 7 then 256 else Size(2, l))
      invariant len <= 128 <==> l < 7
      invariant l < 7 ==> k == 2 * Pow2(6 - l) - 1 && KJoining(a[..], r, 0, l, 0)
      invariant l == 7 ==> CongSeq(a[..], KInverseOf(r), KQ) && Within(a[..], KINV)
      decreases 7 - l
    {
      var start := 0;
      ghost var m := 0;
      KJoiningLen(l, len);
      KJoiningRoom(a[..], r, start, len, l, m);
      while start < 256
        invariant k == 2 * Pow2(6 - l) - 1 - m && KJoining(a[..], r, start, l, m)
        invariant start < 256 ==> m < Pow2(6 - l) && start + 2 * len <= 256
        invariant start >= 256 ==> m == Pow2(6 - l) && start == 256
        invariant forall i | start <= i < 256 :: -KINV <= a[i] <= KINV
        decreases 256 - start
      {
        KMirrorEntry(z, 6 - l, m, k);
        var zeta := z[k];
        k := k - 1;
        ghost var o := a[..];
        KUnbutterflies(a, start, len, zeta, KZI()(Pow2(6 - l) + m));
        KJoiningBlock(o, a[..], r, start, len, l, m);
        start := start + 2 * len;
        m := m + 1;
        KJoiningRoom(a[..], r, start, len, l, m);
      }
      if l < 6 { KJoiningLevel(a[..], r, l); } else { KJoiningEnd(a[..], r, l); }
      KJoiningLen(l, len);
      len := len * 2;
      l := l + 1;
    }
    KFinalLoop(a, r);
  }

  method KFinalLoop(a: array<int16>, ghost r: seq<int>)
    requires a.Length == 256 && |r| == 256 && CongSeq(a[..], KInverseOf(r), KQ) && Within(a[..], KINV)
    modifies a
    ensures CongSeq(a[..], Scale(KR, KUnhat(r)), KQ) && Within(a[..], 1704)
  {
    hide Cong, MontReduce16, CongSeq, KInverseOf, KUnhat;
    ghost var o := a[..];
    for j := 0 to 256
      invariant forall i | j <= i < 256 :: a[i] == o[i]
      invariant forall i | 0 <= i < j :: -1704 <= a[i] <= 1704 && Cong(a[i], KR * (KNINV * o[i]), KQ)
    {
      KFinalScale(o[j]);
      a[j] := MontReduce16(KF * a[j]);
    }
    KFinalSeq(a[..], o, r);
  }
}
