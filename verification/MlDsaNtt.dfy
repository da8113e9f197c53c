/** ML-DSA's two in-place transforms on 256 32-bit words. */
module MlDsaNtt {
  import opened ModArith
  import opened MlDsaModulus
  import opened NttTree
  import opened NegacyclicRing
  import opened ZetaTree
  import opened NttLoop
  import opened MlDsaArith

  /** What the forward code computes, mod q. */
  function Hat(a: seq<int>): (r: seq<int>)
    requires |a| == 256
    ensures |r| == 256
  {
    SizeIsProduct(1, 8);
    Pow2Values();
    Forward(a, 1, 8, 1, Z())
  }

  /** 256^-1 mod q. */
  const NINV: int := 8347681

  /** The true inverse transform, mod q. */
  function Unhat(r: seq<int>): (a: seq<int>)
    requires |r| == 256
    ensures |a| == 256
  {
    SizeIsProduct(1, 8);
    Pow2Values();
    Scale(NINV, Inverse(r, 1, 8, 1, ZI()))
  }

  /** How much one forward layer may add to a coefficient. */
  const GROW: int := 7332864

  lemma TwiddleScalar(zeta: int, zc: int, x: int)
    requires -Q / 2 <= zeta <= Q / 2 && Cong(zeta, R * zc, Q) && -8 * Q <= x <= 8 * Q
    ensures -GROW <= MontgomeryReduce(zeta * x) <= GROW && Cong(MontgomeryReduce(zeta * x), zc * x, Q)
  {
    hide Cong, MontgomeryReduce;
    ProductRange(zeta, x, Q / 2 + 1, 8 * Q);
    MontgomeryBound(zeta * x, 131000);
    MontgomeryFacts(zeta * x);
    TwiddleCong(zeta, zc, x);
  }

  lemma TwiddleCong(zeta: int, zc: int, x: int)
    requires Cong(zeta, R * zc, Q) && Cong(MontgomeryReduce(zeta * x), zeta * x * RINV, Q)
    ensures Cong(MontgomeryReduce(zeta * x), zc * x, Q)
  {
    hide MontgomeryReduce;
    CongScale(x * RINV, zeta, R * zc, Q);
    assert zeta * x * RINV == (x * RINV) * zeta && (x * RINV) * (R * zc) == (zc * x) * (R * RINV);
    CongIntro(R * RINV, 1, Q, (R * RINV - 1) / Q);
    CongScale(zc * x, R * RINV, 1, Q);
    CongTrans(zeta * x * RINV, (zc * x) * (R * RINV), zc * x, Q);
    CongTrans(MontgomeryReduce(zeta * x), zeta * x * RINV, zc * x, Q);
  }

  /** The butterfly of x and y, within the bound. */
  ghost predicate Mixed(x': int, y': int, x: int, y: int, zc: int, b: int) {
    Cong(x', x + zc * y, Q) && Cong(y', x - zc * y, Q) && -b <= x' <= b && -b <= y' <= b
  }

  lemma MixedBy(x: int, y: int, zeta: int, zc: int, bound: int)
    requires -Q / 2 <= zeta <= Q / 2 && Cong(zeta, R * zc, Q)
    requires -bound <= x <= bound && -bound <= y <= bound && bound <= 8 * Q - GROW
    ensures var t := MontgomeryReduce(zeta * y);
      Mixed(x + t, x - t, x, y, zc, bound + GROW)
  {
    hide Cong, MontgomeryReduce;
    TwiddleScalar(zeta, zc, y);
    var t := MontgomeryReduce(zeta * y);
    CongRefl(x, Q);
    CongAdd(x, x, t, zc * y, Q);
    CongSub(x, x, t, zc * y, Q);
  }

  /** One block of a forward layer: the butterflies from start. */
  method Butterflies(a: array<int32>, start: nat, len: nat, zeta: int32, ghost zc: int, ghost bound: int)
    requires a.Length == 256 && start + 2 * len <= 256
    requires -Q / 2 <= zeta <= Q / 2 && Cong(zeta, R * zc, Q) && bound <= 8 * Q - GROW
    requires forall i | start <= i < start + 2 * len :: -bound <= a[i] <= bound
    modifies a
    ensures forall i | start <= i < start + len :: Mixed(a[i], a[i + len], old(a[i]), old(a[i + len]), zc, bound + GROW)
    ensures a[..start] == old(a[..start]) && a[start + 2 * len..] == old(a[start + 2 * len..])
  {
    hide Cong, MontgomeryReduce;
    var j := start;
    while j < start + len
      invariant start <= j <= start + len
      invariant forall i | 0 <= i < 256 && !(start <= i < j) && !(start + len <= i < j + len) :: a[i] == old(a[i])
      invariant forall i | start <= i < j :: Mixed(a[i], a[i + len], old(a[i]), old(a[i + len]), zc, bound + GROW)
    {
      MixedBy(a[j], a[j + len], zeta, zc, bound);
      var t := MontgomeryReduce(zeta * a[j + len]);
      hide Mixed;
      MixedRange(a[j] + t, a[j] - t, a[j], a[j + len], zc, bound);
      a[j + len] := a[j] - t;
      a[j] := a[j] + t;
      j := j + 1;
    }
  }

  lemma MixedRange(x': int, y': int, x: int, y: int, zc: int, bound: int)
    requires Mixed(x', y', x, y, zc, bound + GROW) && bound <= 8 * Q - GROW
    ensures -0x8000_0000 <= x' < 0x8000_0000 && -0x8000_0000 <= y' < 0x8000_0000
  {
  }

  lemma BlockMixed(n: seq<int>, o: seq<int>, zc: int, b: int, len: nat)
    requires |n| == |o| == 2 * len
    requires forall i | 0 <= i < len :: Mixed(n[i], n[i + len], o[i], o[i + len], zc, b)
    ensures CongSeq(n[..len], Lower(o, zc), Q) && CongSeq(n[len..], Upper(o, zc), Q) && Within(n, b)
  {
    hide Cong;
    forall i | 0 <= i < 2 * len ensures -b <= n[i] <= b {
      var j := if i < len then i else i - len;
      assert Mixed(n[j], n[j + len], o[j], o[j + len], zc, b);
    }
    forall i | 0 <= i < len
      ensures Cong(n[..len][i], Lower(o, zc)[i], Q) && Cong(n[len..][i], Upper(o, zc)[i], Q)
    {
      assert Mixed(n[i], n[i + len], o[i], o[i + len], zc, b);
    }
  }

  /** What the forward loops keep: the array cut at `start`. */
  ghost predicate Splitting(a: seq<int>, start: nat, l: nat, m: nat, t: seq<int>) {
    start <= |a| && l < 8
    && InForward(a[..start], a[start..], 1, 8 - l, Pow2(l), m, Z(), t, Q, Q + l * GROW, Q + (l + 1) * GROW)
  }

  lemma SplittingBlock(o: seq<int>, n: seq<int>, start: nat, len: nat, l: nat, m: nat, t: seq<int>)
    requires Splitting(o, start, l, m, t) && m < Pow2(l) && 2 * len == Size(1, 8 - l)
    requires |n| == |o| && start + 2 * len <= |o| && n[..start] == o[..start] &&
      n[start + 2 * len..] == o[start + 2 * len..]
    requires forall i | start <= i < start + len :: Mixed(n[i], n[i + len], o[i], o[i + len], Z()(Pow2(l) + m),
               Q + (l + 1) * GROW)
    ensures Splitting(n, start + 2 * len, l, m + 1, t)
  {
    hide Mixed, InForward, Size, Pow2, Lower, Upper, CongSeq, Within, Z;
    var e := start + 2 * len;
    var block, split := o[start..e], n[start..e];
    assert o[start..] == block + o[e..];
    forall i | 0 <= i < len
      ensures Mixed(split[i], split[i + len], block[i], block[i + len], Z()(Pow2(l) + m), Q + (l + 1) * GROW)
    {
      assert split[i] == n[start + i] && block[i] == o[start + i];
    }
    BlockMixed(split, block, Z()(Pow2(l) + m), Q + (l + 1) * GROW, len);
    var lo, hi := split[..len], split[len..];
    assert lo + hi == split;
    ForwardBlock(o[..start], block, o[e..], lo, hi, 1, 8 - l, Pow2(l), m, Z(), t, Q, Q + l * GROW, Q + (l + 1) * GROW);
    assert n[..e] == o[..start] + split;
  }

  lemma SplittingRoom(a: seq<int>, start: nat, len: nat, l: nat, m: nat, t: seq<int>)
    requires Splitting(a, start, l, m, t) && |a| == 256 && 2 * len == Size(1, 8 - l)
    ensures start < 256 ==> m < Pow2(l) && start + 2 * len <= 256 && 1 <= Pow2(l) + m < 256
    ensures start >= 256 ==> m == Pow2(l) && start == 256
    ensures forall i | start <= i < 256 :: -(Q + l * GROW) <= a[i] <= Q + l * GROW
    ensures Q + l * GROW <= 8 * Q - GROW
  {
    hide InForward, Size, Pow2;
    SizePositive(1, 8 - l);
    ForwardRoom(a[..start], a[start..], 1, 8 - l, Pow2(l), m, Z(), t, Q, Q + l * GROW, Q + (l + 1) * GROW);
    Pow2Mono(l, 7);
    Pow2Seven();
    RoomWithin(a, start, l, m, t);
  }

  lemma RoomWithin(a: seq<int>, start: nat, l: nat, m: nat, t: seq<int>)
    requires Splitting(a, start, l, m, t)
    ensures forall i | start <= i < |a| :: -(Q + l * GROW) <= a[i] <= Q + l * GROW
  {
    hide Passing;
    forall i | start <= i < |a| ensures -(Q + l * GROW) <= a[i] <= Q + l * GROW {
      assert a[start..][i - start] == a[i];
    }
  }

  lemma Pow2Seven()
    ensures Pow2(0) == 1 && Pow2(7) == 128
  {
    Pow2Values();
    assert Pow2(7) == 128;
  }

  lemma SplittingStart(a: seq<int>)
    requires |a| == 256 && Within(a, Q)
    ensures Splitting(a, 0, 0, 0, Hat(a)) && Size(1, 8) == 256
  {
    hide InForward, Within, Forward, Z;
    SizeIsProduct(1, 8);
    Pow2Values();
    ForwardStart(a, 1, 8, Z(), Q, Q, Q + GROW);
    assert a[..0] == [] && a[0..] == a;
    Pow2Seven();
  }

  lemma SplittingLevel(a: seq<int>, l: nat, t: seq<int>)
    requires |a| == 256 && Splitting(a, 256, l, Pow2(l), t)
    ensures l < 7 ==> Splitting(a, 0, l + 1, 0, t)
    ensures l == 7 ==> CongSeq(a, t, Q) && Within(a, 8 * Q)
    ensures Pow2(l + 1) == 2 * Pow2(l)
  {
    hide InForward, Within, Z, CongSeq;
    assert a[..256] == a && a[256..] == [] && a[..0] == [] && a[0..] == a;
    ForwardLevel(a, 1, 8 - l, Pow2(l), Z(), t, Q, Q + l * GROW, Q + (l + 1) * GROW, Q + (l + 2) * GROW);
    if l == 7 { WithinWider(a, Q + 8 * GROW, 8 * Q); }
  }

  /** Half a block at the next level. */
  lemma NextLen(len: nat, l: nat)
    requires l < 8 && 2 * len == Size(1, 8 - l)
    ensures l < 7 ==> 2 * (len / 2) == Size(1, 7 - l) && len / 2 > 0
    ensures l == 7 ==> len == 1
  {
    SizePositive(1, 8 - l);
    if l < 7 { SizePositive(1, 7 - l); }
  }

  /** Forward negacyclic NTT, in place: inputs up to q, outputs up to 8q, never outside int32. */
  method Ntt(a: array<int32>, z: seq<int>)
    requires a.Length == 256 && ZetaTable(z) && Within(a[..], Q)
    modifies a
    ensures CongSeq(a[..], Hat(old(a[..])), Q) && Within(a[..], 8 * Q)
  {
    hide Pow2, Size, Splitting, CongSeq, Hat, Within, Mixed, Z, ZetaTable;
    ghost var t := Hat(a[..]);
    SplittingStart(a[..]);
    Pow2Seven();
    var k := 0;
    var len := 128;
    ghost var l := 0;
    while len > 0
      invariant l <= 8 && k == Pow2(l) - 1
      invariant len > 0 <==> l < 8
      invariant l < 8 ==> 2 * len == Size(1, 8 - l) && Splitting(a[..], 0, l, 0, t)
      invariant l == 8 ==> CongSeq(a[..], t, Q) && Within(a[..], 8 * Q)
      decreases 8 - l
    {
      var start := 0;
      ghost var m := 0;
      SplittingRoom(a[..], start, len, l, m, t);
      while start < 256
        invariant k == Pow2(l) - 1 + m && Splitting(a[..], start, l, m, t)
        invariant start < 256 ==> m < Pow2(l) && start + 2 * len <= 256 && 1 <= Pow2(l) + m < 256
        invariant start >= 256 ==> m == Pow2(l) && start == 256
        invariant forall i | start <= i < 256 :: -(Q + l * GROW) <= a[i] <= Q + l * GROW
        decreases 256 - start
      {
        k := k + 1;
        TableEntryAt(z, k);
        var zeta := z[k];
        ghost var o := a[..];
        Butterflies(a, start, len, zeta, Z()(k), Q + l * GROW);
        SplittingBlock(o, a[..], start, len, l, m, t);
        start := start + 2 * len;
        m := m + 1;
        SplittingRoom(a[..], start, len, l, m, t);
      }
      SplittingLevel(a[..], l, t);
      NextLen(len, l);
      len := len / 2;
      l := l + 1;
    }
  }

  lemma TableEntryAt(z: seq<int>, k: nat)
    requires ZetaTable(z) && 1 <= k < 256
    ensures |z| == 256 && -Q / 2 <= z[k] <= Q / 2 && Cong(z[k], R * Z()(k), Q)
  {
  }

  // ------------------------------------------------------------ inverse

  /** The negated table entry met at node w + m is the reciprocal of that node's constant. */
  lemma MirrorZeta(lev: nat, m: nat)
    requires lev <= 7 && m < Pow2(lev)
    ensures 1 <= 2 * Pow2(lev) - 1 - m < 256
    ensures Cong(-Z()(2 * Pow2(lev) - 1 - m), ZI()(Pow2(lev) + m), Q)
  {
    hide Power, Exp, Pow2, HalfTurn, Cong;
    var w := Pow2(lev);
    Pow2Mono(lev, 7);
    Pow2Seven();
    Pow2Add(lev, 7 - lev);
    DivModUnique(128, w, Pow2(7 - lev), 0);
    ExpMirror(lev, w + m, 128);
    RootHalfTurn();
    var e := Exp(2 * w - 1 - m, 128);
    PowerTurn(ROOT, 128, e, Q);
    CongSym(Power(ROOT, e + 256), -Power(ROOT, e), Q);
  }

  /** A scaled difference of the inverse layers. */
  lemma UntwiddleScalar(zeta: int, zc: int, x: int)
    requires -Q / 2 <= zeta <= Q / 2 + 1 && Cong(zeta, R * zc, Q) && -256 * Q <= x <= 256 * Q
    ensures -2 * Q <= MontgomeryReduce(zeta * x) <= 2 * Q && Cong(MontgomeryReduce(zeta * x), zc * x, Q)
  {
    hide Cong, MontgomeryReduce;
    ProductRange(zeta, x, Q / 2 + 1, 256 * Q);
    MontgomeryBound(zeta * x, 2100000);
    MontgomeryFacts(zeta * x);
    TwiddleCong(zeta, zc, x);
  }

  /** The inverse butterfly of x and y, within the bound. */
  ghost predicate Joined(x': int, y': int, x: int, y: int, zc: int, b: int) {
    x' == x + y && Cong(y', zc * (x - y), Q) && -b <= x' <= b && -b <= y' <= b
  }

  lemma JoinedBy(x: int, y: int, zeta: int, zc: int, bound: int)
    requires -Q / 2 <= zeta <= Q / 2 + 1 && Cong(zeta, R * zc, Q)
    requires -bound <= x <= bound && -bound <= y <= bound && Q <= bound <= 128 * Q
    ensures Joined(x + y, MontgomeryReduce(zeta * (x - y)), x, y, zc, 2 * bound)
    ensures -0x8000_0000 <= x + y < 0x8000_0000 && -0x8000_0000 <= x - y < 0x8000_0000
    ensures -0x8000_0000 <= MontgomeryReduce(zeta * (x - y)) < 0x8000_0000
  {
    hide Cong, MontgomeryReduce;
    UntwiddleScalar(zeta, zc, x - y);
  }

  method Unbutterflies(a: array<int32>, start: nat, len: nat, zeta: int32, ghost zc: int, ghost bound: int)
    requires a.Length == 256 && start + 2 * len <= 256
    requires -Q / 2 <= zeta <= Q / 2 + 1 && Cong(zeta, R * zc, Q) && Q <= bound <= 128 * Q
    requires forall i | start <= i < start + 2 * len :: -bound <= a[i] <= bound
    modifies a
    ensures forall i | start <= i < start + len :: Joined(a[i], a[i + len], old(a[i]), old(a[i + len]), zc, 2 * bound)
    ensures a[..start] == old(a[..start]) && a[start + 2 * len..] == old(a[start + 2 * len..])
  {
    hide Cong, MontgomeryReduce, Joined;
    var j := start;
    while j < start + len
      invariant start <= j <= start + len
      invariant forall i | 0 <= i < 256 && !(start <= i < j) && !(start + len <= i < j + len) :: a[i] == old(a[i])
      invariant forall i | start <= i < j :: Joined(a[i], a[i + len], old(a[i]), old(a[i + len]), zc, 2 * bound)
    {
      JoinedBy(a[j], a[j + len], zeta, zc, bound);
      var t := a[j];
      a[j] := t + a[j + len];
      a[j + len] := t - a[j + len];
      a[j + len] := MontgomeryReduce(zeta * a[j + len]);
      j := j + 1;
    }
  }

  lemma BlockJoined(n: seq<int>, lo: seq<int>, hi: seq<int>, zc: int, b: int)
    requires |n| == 2 * |lo| && |lo| == |hi|
    requires forall i | 0 <= i < |lo| :: Joined(n[i], n[i + |lo|], lo[i], hi[i], zc, b)
    ensures CongSeq(n, Merge(lo, hi, zc), Q) && Within(n, b)
  {
    var len := |lo|;
    hide Cong;
    MergeAt(lo, hi, zc);
    hide Merge;
    forall i | 0 <= i < 2 * len
      ensures -b <= n[i] <= b && Cong(n[i], Merge(lo, hi, zc)[i], Q)
    {
      var j := if i < len then i else i - len;
      assert Joined(n[j], n[j + len], lo[j], hi[j], zc, b);
      CongRefl(lo[j] + hi[j], Q);
    }
  }

  /** The range after l inverse layers. */
  function Doubled(l: nat): int { Q * Pow2(l) }

  /** What the inverse loops keep: array and transform cut at `start`. */
  ghost predicate Joining(a: seq<int>, r: seq<int>, start: nat, l: nat, m: nat) {
    start <= |a| == |r| && l < 8
    && InInverse(a[..start], a[start..], r[..start], r[start..], 1, l + 1, Pow2(7 - l), m, ZI(), Q, Doubled(l),
      Doubled(l + 1))
  }

  lemma JoiningBlock(o: seq<int>, n: seq<int>, r: seq<int>, start: nat, len: nat, l: nat, m: nat)
    requires Joining(o, r, start, l, m) && m < Pow2(7 - l) && len == Size(1, l)
    requires |n| == |o| && start + 2 * len <= |o| && n[..start] == o[..start] &&
      n[start + 2 * len..] == o[start + 2 * len..]
    requires (forall i | start <= i < start + len ::
      Joined(n[i], n[i + len], o[i], o[i + len], ZI()(Pow2(7 - l) + m), Doubled(l + 1)))
    ensures Joining(n, r, start + 2 * len, l, m + 1)
  {
    hide Joined, InInverse, Size, Pow2, Merge, CongSeq, Within, ZI, Doubled;
    var c, e := start + len, start + 2 * len;
    var lo, hi, u, v, split := o[start..c], o[c..e], r[start..c], r[c..e], n[start..e];
    forall i | 0 <= i < len
      ensures Joined(split[i], split[i + len], lo[i], hi[i], ZI()(Pow2(7 - l) + m), Doubled(l + 1))
    {
      assert split[i] == n[start + i] && split[i + len] == n[start + i + len];
      assert lo[i] == o[start + i] && hi[i] == o[start + i + len];
    }
    BlockJoined(split, lo, hi, ZI()(Pow2(7 - l) + m), Doubled(l + 1));
    CutThree(o, start, c, e);
    CutThree(r, start, c, e);
    InverseBlock(o[..start], lo, hi, o[e..], split, r[..start], u, v, r[e..], 1, l + 1, Pow2(7 - l), m, ZI(), Q,
      Doubled(l), Doubled(l + 1));
    assert n[..e] == o[..start] + split;
  }

  lemma CutThree(a: seq<int>, s: nat, c: nat, e: nat)
    requires s <= c <= e <= |a|
    ensures a[s..] == a[s..c] + a[c..e] + a[e..] && a[..e] == a[..s] + (a[s..c] + a[c..e])
  {
  }

  lemma JoiningRoom(a: seq<int>, r: seq<int>, start: nat, len: nat, l: nat, m: nat)
    requires Joining(a, r, start, l, m) && |a| == 256 && len == Size(1, l)
    ensures start < 256 ==> m < Pow2(7 - l) && start + 2 * len <= 256
    ensures start >= 256 ==> m == Pow2(7 - l) && start == 256
    ensures forall i | start <= i < 256 :: -Doubled(l) <= a[i] <= Doubled(l)
    ensures Q <= Doubled(l) <= 128 * Q && Doubled(l + 1) == 2 * Doubled(l)
  {
    JoiningWithin(a, r, start, l, m);
    hide InInverse, Size, Pow2;
    InverseRoom(a[..start], a[start..], r[..start], r[start..], 1, l + 1, Pow2(7 - l), m, ZI(), Q, Doubled(l),
      Doubled(l + 1));
    Pow2Mono(l, 7);
    Pow2Seven();
    Pow2Double(l + 1);
  }

  lemma JoiningWithin(a: seq<int>, r: seq<int>, start: nat, l: nat, m: nat)
    requires Joining(a, r, start, l, m)
    ensures forall i | start <= i < |a| :: -Doubled(l) <= a[i] <= Doubled(l)
  {
    hide Merging, Doubled;
    forall i | start <= i < |a| ensures -Doubled(l) <= a[i] <= Doubled(l) {
      assert a[start..][i - start] == a[i];
    }
  }

  lemma JoiningStart(a: seq<int>)
    requires |a| == 256 && Within(a, Q)
    ensures Joining(a, a, 0, 0, 0) && Size(1, 0) == 1
  {
    hide InInverse, Within, ZI;
    SizeIsProduct(1, 8);
    Pow2Values();
    Pow2Seven();
    InverseStart(a, 1, 8, 128, ZI(), Q, Doubled(0), Doubled(1));
    assert a[..0] == [] && a[0..] == a;
  }

  lemma JoiningWhole(a: seq<int>, r: seq<int>, l: nat)
    requires l < 8 && |a| == 256 && Joining(a, r, 256, l, Pow2(7 - l))
    ensures InInverse(a, [], r, [], 1, l + 1, Pow2(7 - l), Pow2(7 - l), ZI(), Q, Doubled(l), Doubled(l + 1)) &&
      |r| == 256
  {
    hide InInverse, ZI, Doubled, Pow2;
    assert a[..256] == a && a[256..] == [] && r[..256] == r && r[256..] == [];
  }

  lemma JoiningLevel(a: seq<int>, r: seq<int>, l: nat)
    requires l < 7 && |a| == 256 && Joining(a, r, 256, l, Pow2(7 - l))
    ensures Joining(a, r, 0, l + 1, 0)
  {
    hide InInverse, ZI, Doubled, Pow2;
    EvenWidth(7 - l);
    Pow2Double(7 - l);
    JoiningWhole(a, r, l);
    hide Joining;
    InverseLevel(a, r, 1, l + 1, Pow2(7 - l), ZI(), Q, Doubled(l), Doubled(l + 1), Doubled(l + 2));
    JoiningIntro(a, r, l);
  }

  lemma JoiningIntro(a: seq<int>, r: seq<int>, l: nat)
    requires l < 7 && |a| == |r|
    requires InInverse([], a, [], r, 1, l + 2, Pow2(6 - l), 0, ZI(), Q, Doubled(l + 1), Doubled(l + 2))
    ensures Joining(a, r, 0, l + 1, 0)
  {
    hide InInverse, ZI, Doubled, Pow2;
    assert a[..0] == [] && a[0..] == a && r[..0] == [] && r[0..] == r;
  }

  lemma JoiningEnd(a: seq<int>, r: seq<int>, l: nat)
    requires l == 7 && |a| == 256 && Joining(a, r, 256, l, Pow2(7 - l))
    ensures |r| == 256 && CongSeq(a, InverseOf(r), Q) && Within(a, 256 * Q)
  {
    hide InInverse, ZI, Doubled, Pow2, Inverse, CongSeq, Within, Size, InverseOf;
    EvenWidth(7 - l);
    JoiningWhole(a, r, l);
    DoubledEight(l + 1);
    InverseLevel(a, r, 1, l + 1, Pow2(7 - l), ZI(), Q, Doubled(l), Doubled(l + 1), 0);
    InverseOfIs(r, l + 1);
  }

  lemma InverseOfIs(r: seq<int>, d: nat)
    requires |r| == 256 && d == 8
    ensures Size(1, d) == 256 && InverseOf(r) == Inverse(r, 1, d, 1, ZI())
  {
    hide Inverse, ZI;
  }

  lemma EvenWidth(n: nat)
    ensures Pow2(n) == 1 <==> n == 0
    ensures n > 0 ==> Pow2(n) % 2 == 0 && Pow2(n) > 1
  {
    if n > 0 { Pow2Double(n); Pow2Mono(0, n - 1); }
  }

  lemma JoiningLen(l: nat, len: nat)
    requires l < 8 && len == Size(1, l)
    ensures 2 * len == Size(1, l + 1) && 1 <= len && Pow2(7 - l) == (if l == 7 then 1 else 2 * Pow2(6 - l))
    ensures l < 7 ==> 2 * len < 256
    ensures l == 7 ==> 2 * len == 256
  {
    SizeIsProduct(1, l);
    Pow2Seven();
    Pow2Mono(l, 7);
    if l < 7 { Pow2Mono(l, 6); Pow2Double(7 - l); }
  }

  lemma DoubledEight(l: nat)
    requires l == 8
    ensures Doubled(l) == 256 * Q
  {
    Pow2Values();
  }

  /** 256^-1 * 2^64 mod q. */
  const F: int := 41978

  lemma FinalScale(x: int)
    requires -256 * Q <= x <= 256 * Q
    ensures var r := MontgomeryReduce(F * x);
      -4211179 <= r <= 4211179 && Cong(r, R * (NINV * x), Q)
  {
    hide MontgomeryReduce, Cong;
    MontgomeryBound(F * x, 20969);
    MontgomeryFacts(F * x);
    FinalCong(MontgomeryReduce(F * x), x);
  }

  lemma FinalCong(v: int, x: int)
    requires Cong(v, F * x * RINV, Q)
    ensures Cong(v, R * (NINV * x), Q)
  {
    var c, e := F * RINV, R * NINV;
    CongIntro(c, e, Q, (c - e) / Q);
    hide Cong;
    CongScale(x, c, e, Q);
    assert F * x * RINV == x * c && x * e == R * (NINV * x);
    CongTrans(v, x * c, x * e, Q);
  }

  /** The final scaling of coefficient i: v from the merged value c, where c is congruent to
      the inverse transform's. */
  lemma FinalEntry(v: int, c: int, x: int)
    requires Cong(v, R * (NINV * c), Q) && Cong(c, x, Q)
    ensures Cong(v, R * (NINV * x), Q)
  {
    CongScale(R * NINV, c, x, Q);
    assert (R * NINV) * c == R * (NINV * c) && (R * NINV) * x == R * (NINV * x);
    CongTrans(v, R * (NINV * c), R * (NINV * x), Q);
  }

  lemma FinalSeq(n: seq<int>, o: seq<int>, r: seq<int>)
    requires |n| == |o| == |r| == 256 && CongSeq(o, InverseOf(r), Q)
    requires forall i | 0 <= i < 256 :: Cong(n[i], R * (NINV * o[i]), Q)
    ensures CongSeq(n, Scale(R, Unhat(r)), Q)
  {
    hide Inverse, Cong, ZI;
    forall i | 0 <= i < 256 ensures Cong(n[i], Scale(R, Unhat(r))[i], Q) {
      FinalEntry(n[i], o[i], InverseOf(r)[i]);
    }
  }

  function InverseOf(r: seq<int>): (a: seq<int>)
    requires |r| == 256
    ensures |a| == 256 && Unhat(r) == Scale(NINV, a)
  {
    SizeIsProduct(1, 8);
    Pow2Values();
    Inverse(r, 1, 8, 1, ZI())
  }

  /** Inverse NTT, in place, back in Montgomery form: from inputs up to q every sum stays
      within 256 q < 2^31. */
  method InvNttToMont(a: array<int32>, z: seq<int>)
    requires a.Length == 256 && ZetaTable(z) && Within(a[..], Q)
    modifies a
    ensures CongSeq(a[..], Scale(R, Unhat(old(a[..]))), Q) && Within(a[..], 4211179)
  {
    hide Pow2, Size, Joining, CongSeq, Unhat, Within, Joined, Z, ZI, ZetaTable, Doubled, InverseOf, Cong,
      MontgomeryReduce;
    ghost var r := a[..];
    JoiningStart(r);
    Pow2Seven();
    var k := 256;
    var len := 1;
    ghost var l := 0;
    while len < 256
      invariant l <= 8 && len == (if l == 8 then 256 else Size(1, l))
      invariant len < 256 <==> l < 8
      invariant l < 8 ==> k == 2 * Pow2(7 - l) && Joining(a[..], r, 0, l, 0)
      invariant l == 8 ==> CongSeq(a[..], InverseOf(r), Q) && Within(a[..], 256 * Q)
      decreases 8 - l
    {
      var start := 0;
      ghost var m := 0;
      JoiningLen(l, len);
      JoiningRoom(a[..], r, start, len, l, m);
      while start < 256
        invariant k == 2 * Pow2(7 - l) - m && Joining(a[..], r, start, l, m)
        invariant start < 256 ==> m < Pow2(7 - l) && start + 2 * len <= 256
        invariant start >= 256 ==> m == Pow2(7 - l) && start == 256
        invariant forall i | start <= i < 256 :: -Doubled(l) <= a[i] <= Doubled(l)
        decreases 256 - start
      {
        k := k - 1;
        MirrorEntry(z, 7 - l, m, k);
        var zeta := -z[k];
        ghost var o := a[..];
        Unbutterflies(a, start, len, zeta, ZI()(Pow2(7 - l) + m), Doubled(l));
        JoiningBlock(o, a[..], r, start, len, l, m);
        start := start + 2 * len;
        m := m + 1;
        JoiningRoom(a[..], r, start, len, l, m);
      }
      if l < 7 { JoiningLevel(a[..], r, l); } else { JoiningEnd(a[..], r, l); }
      JoiningLen(l, len);
      len := len * 2;
      l := l + 1;
    }
    FinalLoop(a, r);
  }

  lemma MirrorEntry(z: seq<int>, lev: nat, m: nat, k: int)
    requires ZetaTable(z) && lev <= 7 && m < Pow2(lev) && k == 2 * Pow2(lev) - 1 - m
    ensures 1 <= k < 256 && |z| == 256 && -Q / 2 <= -z[k] <= Q / 2 + 1
    ensures Cong(-z[k], R * ZI()(Pow2(lev) + m), Q)
  {
    hide Cong, Z, ZI, Pow2;
    MirrorZeta(lev, m);
    NegatedEntry(z[k], Z()(k), ZI()(Pow2(lev) + m));
  }

  lemma NegatedEntry(v: int, e: int, i: int)
    requires Cong(v, R * e, Q) && Cong(-e, i, Q)
    ensures Cong(-v, R * i, Q)
  {
    hide Cong;
    CongScale(-1, v, R * e, Q);
    CongScale(R, -e, i, Q);
    assert R * (-e) == -1 * (R * e);
    CongTrans(-v, R * (-e), R * i, Q);
  }

  method FinalLoop(a: array<int32>, ghost r: seq<int>)
    requires a.Length == 256 && |r| == 256 && CongSeq(a[..], InverseOf(r), Q) && Within(a[..], 256 * Q)
    modifies a
    ensures CongSeq(a[..], Scale(R, Unhat(r)), Q) && Within(a[..], 4211179)
  {
    hide Cong, MontgomeryReduce, CongSeq, InverseOf, Unhat;
    ghost var o := a[..];
    for j := 0 to 256
      invariant forall i | j <= i < 256 :: a[i] == o[i]
      invariant forall i | 0 <= i < j :: -4211179 <= a[i] <= 4211179 && Cong(a[i], R * (NINV * o[i]), Q)
    {
      FinalScale(o[j]);
      a[j] := MontgomeryReduce(F * a[j]);
    }
    FinalSeq(a[..], o, r);
  }
}
