/** The challenge sampler: a shuffle driven by a byte stream that leaves exactly tau coefficients
    1 or -1, and why a product with such a polynomial stays below beta. */
module MlDsaChallenge {
  import opened Options
  import opened ModArith
  import opened Bits
  import opened NttTree
  import opened NegacyclicRing
  import opened MlDsaParams
  import opened MlDsaPacking
  import opened MlDsaScheme

  /** 1 - 2 (signs & 1), after `t` shifts. */
  function SignAt(signs: Lane64, t: nat): int
    requires t < 64
  {
    if signs[t] then -1 else 1
  }

  /** c[i] = c[b]; c[b] = the sign. */
  function Swapped(c: Poly, i: nat, b: nat, s: int): Poly
    requires i < 256 && b < 256
  {
    c[i := c[b]][b := s]
  }

  lemma TauFits(p: Params)
    ensures 0 < p.Tau() <= 64
  {
  }

  /** SampleInBall from index i on: a byte above i is dropped, any other is the next position. */
  function Walk(p: Params, c: Poly, signs: Lane64, i: nat, tape: seq<byte>): (r: Option<Poly>)
    requires 256 - p.Tau() <= i <= 256
    decreases |tape|
  {
    if i == 256 then Some(c)
    else if tape == [] then None
    else if tape[0] > i then Walk(p, c, signs, i, tape[1..])
    else
      TauFits(p);
      Walk(p, Swapped(c, i, tape[0], SignAt(signs, i - (256 - p.Tau()))), signs, i + 1, tape[1..])
  }

  /** The code's walk, in place; None when the stretch of stream runs out first. */
  method SampleInBall(p: Params, signs: Lane64, tape: seq<byte>) returns (r: Option<Poly>)
    ensures r == Walk(p, ZeroPoly(), signs, 256 - p.Tau(), tape)
  {
    TauFits(p);
    var c := new int[256](_ => 0);
    assert c[..] == ZeroPoly();
    var pos := 0;
    var i: nat := 256 - p.Tau();
    while i < 256
      invariant 256 - p.Tau() <= i <= 256 && pos <= |tape|
      invariant Walk(p, c[..], signs, i, tape[pos..]) == Walk(p, ZeroPoly(), signs, 256 - p.Tau(), tape)
      decreases 256 - i
    {
      ghost var before := c[..];
      pos := NextPosition(p, before, signs, i, tape, pos);
      if pos == |tape| { return None; }
      var b := tape[pos];
      WalkPlaced(p, before, signs, i, tape, pos);
      pos := pos + 1;
      c[i] := c[b];
      c[b] := SignAt(signs, i - (256 - p.Tau()));
      assert c[..] == Swapped(before, i, b, SignAt(signs, i - (256 - p.Tau())));
      i := i + 1;
    }
    r := Some(c[..]);
  }

  /** The inner loop: past every byte above i. */
  method NextPosition(p: Params, ghost c: Poly, signs: Lane64, i: nat, tape: seq<byte>, from: nat) returns (pos: nat)
    requires 256 - p.Tau() <= i < 256 && from <= |tape|
    ensures from <= pos <= |tape| && (forall k | from <= k < pos :: tape[k] > i) && (pos < |tape| ==> tape[pos] <= i)
    ensures Walk(p, c, signs, i, tape[pos..]) == Walk(p, c, signs, i, tape[from..])
    ensures pos == |tape| ==> Walk(p, c, signs, i, tape[from..]) == None
  {
    pos := from;
    while pos < |tape| && tape[pos] > i
      invariant from <= pos <= |tape| && forall k | from <= k < pos :: tape[k] > i
      invariant Walk(p, c, signs, i, tape[pos..]) == Walk(p, c, signs, i, tape[from..])
    {
      assert tape[pos..][1..] == tape[pos + 1..];
      pos := pos + 1;
    }
  }

  lemma WalkPlaced(p: Params, c: Poly, signs: Lane64, i: nat, tape: seq<byte>, pos: nat)
    requires 256 - p.Tau() <= i < 256 && pos < |tape| && tape[pos] <= i && p.Tau() <= 64
    ensures Walk(p, c, signs, i, tape[pos..]) ==
      Walk(p, Swapped(c, i, tape[pos], SignAt(signs, i - (256 - p.Tau()))), signs, i + 1, tape[pos + 1..])
  {
    assert tape[pos..][1..] == tape[pos + 1..];
  }

  /** A longer stretch of the stream changes nothing once the walk has finished. */
  lemma {:induction false} WalkLonger(p: Params, c: Poly, signs: Lane64, i: nat, tape: seq<byte>, more: seq<byte>)
    requires 256 - p.Tau() <= i <= 256 && Walk(p, c, signs, i, tape).Some?
    ensures Walk(p, c, signs, i, tape + more) == Walk(p, c, signs, i, tape)
    decreases |tape|
  {
    hide Swapped, SignAt;
    if i < 256 {
      TauFits(p);
      assert (tape + more)[1..] == tape[1..] + more;
      if tape[0] > i {
        WalkLonger(p, c, signs, i, tape[1..], more);
      } else {
        WalkLonger(p, Swapped(c, i, tape[0], SignAt(signs, i - (256 - p.Tau()))), signs, i + 1, tape[1..], more);
      }
    }
  }

  // ------------------------------------------------------------ what the shuffle leaves

  function Abs(x: int): nat { if x < 0 then -x else x }

  /** The sum of the coefficients, and of their sizes. */
  function Total(c: seq<int>): int { if c == [] then 0 else Total(c[..|c| - 1]) + c[|c| - 1] }
  function OneNorm(c: seq<int>): nat { if c == [] then 0 else OneNorm(c[..|c| - 1]) + Abs(c[|c| - 1]) }

  lemma {:induction false} SumsUpdate(c: seq<int>, j: nat, v: int)
    requires j < |c|
    ensures Total(c[j := v]) == Total(c) - c[j] + v && OneNorm(c[j := v]) == OneNorm(c) - Abs(c[j]) + Abs(v)
    decreases |c|
  {
    hide Abs;
    var n := |c| - 1;
    if j < n {
      SumsUpdate(c[..n], j, v);
      assert c[j := v][..n] == c[..n][j := v];
    } else {
      assert c[j := v][..n] == c[..n];
    }
  }

  /** The first t signs, added up. */
  function Signs(signs: Lane64, t: nat): int
    requires t <= 64
  {
    if t == 0 then 0 else Signs(signs, t - 1) + SignAt(signs, t - 1)
  }

  /** After t positions: t coefficients 1 or -1 adding up to the signs, all of them below index i. */
  ghost predicate Placed(p: Params, c: Poly, signs: Lane64, i: nat) {
    && 0 < p.Tau() <= 64 && 256 - p.Tau() <= i <= 256
    && InRange(c, -1, 1) && (forall j | i <= j < 256 :: c[j] == 0)
    && OneNorm(c) == i - (256 - p.Tau()) && Total(c) == Signs(signs, i - (256 - p.Tau()))
  }

  lemma PlacedNext(p: Params, c: Poly, signs: Lane64, i: nat, b: nat)
    requires Placed(p, c, signs, i) && b <= i < 256
    ensures Placed(p, Swapped(c, i, b, SignAt(signs, i - (256 - p.Tau()))), signs, i + 1)
  {
    hide OneNorm, Total;
    var s := SignAt(signs, i - (256 - p.Tau()));
    SumsUpdate(c, i, c[b]);
    SumsUpdate(c[i := c[b]], b, s);
  }

  lemma {:induction false} WalkPlaces(p: Params, c: Poly, signs: Lane64, i: nat, tape: seq<byte>)
    requires Placed(p, c, signs, i) && Walk(p, c, signs, i, tape).Some?
    ensures Placed(p, Walk(p, c, signs, i, tape).value, signs, 256)
    decreases |tape|
  {
    hide Swapped, SignAt, OneNorm, Total, Signs;
    if i < 256 {
      if tape[0] > i {
        WalkPlaces(p, c, signs, i, tape[1..]);
      } else {
        PlacedNext(p, c, signs, i, tape[0]);
        WalkPlaces(p, Swapped(c, i, tape[0], SignAt(signs, i - (256 - p.Tau()))), signs, i + 1, tape[1..]);
      }
    }
  }

  lemma {:induction false} ZeroSums(n: nat)
    ensures Total(seq(n, _ => 0)) == 0 && OneNorm(seq(n, _ => 0)) == 0
  {
    if n > 0 {
      ZeroSums(n - 1);
      assert seq(n, _ => 0)[..n - 1] == seq(n - 1, _ => 0);
    }
  }

  /** Whenever the walk finishes: every coefficient -1, 0 or 1, exactly tau of them non-zero, and
      their signs are the first tau sign bits. */
  lemma BallWeight(p: Params, signs: Lane64, tape: seq<byte>)
    requires Walk(p, ZeroPoly(), signs, 256 - p.Tau(), tape).Some?
    ensures var c := Walk(p, ZeroPoly(), signs, 256 - p.Tau(), tape).value;
      InRange(c, -1, 1) && OneNorm(c) == p.Tau() <= 64 && Total(c) == Signs(signs, p.Tau())
  {
    hide Walk, OneNorm, Total;
    TauFits(p);
    ZeroSums(256);
    WalkPlaces(p, ZeroPoly(), signs, 256 - p.Tau(), tape);
  }

  // ------------------------------------------------------------ what beta bounds

  lemma TermBound(x: int, y: int, eta: nat)
    requires Abs(y) <= eta
    ensures Abs(x * y) <= eta * Abs(x)
  {
    if x < 0 {
      MulMono(-(eta as int), y, -x);
      MulMono(y, eta, -x);
      assert (-x) * y == -(x * y);
    } else {
      MulMono(-(eta as int), y, x);
      MulMono(y, eta, x);
    }
  }

  lemma NormNext(c: seq<int>, m: nat)
    requires 0 < m <= |c|
    ensures OneNorm(c[..m]) == OneNorm(c[..m - 1]) + Abs(c[m - 1])
  {
    assert c[..m][..m - 1] == c[..m - 1];
  }

  lemma SumBound(u: int, v: int, eta: nat, n: nat, x: nat)
    requires Abs(u) <= eta * n && Abs(v) <= eta * x
    ensures Abs(u + v) <= eta * (n + x)
  {
    assert eta * (n + x) == eta * n + eta * x;
  }

  lemma {:induction false} CoeffBound(c: seq<int>, s: seq<int>, k: nat, m: nat, eta: nat)
    requires |c| == |s| && k < |s| && m <= |c| && forall j | 0 <= j < |s| :: Abs(s[j]) <= eta
    ensures Abs(ProductCoeff(c, s, k, m)) <= eta * OneNorm(c[..m])
    decreases m
  {
    hide Abs, OneNorm;
    if m == 0 {
      assert Abs(0) == 0 && OneNorm(c[..0]) == 0 by { NormNone(c); }
    } else {
      CoeffBound(c, s, k, m - 1, eta);
      var y := if m - 1 <= k then s[k - (m - 1)] else -s[|s| + k - (m - 1)];
      assert Abs(y) <= eta by { AbsNegated(y); }
      TermBound(c[m - 1], y, eta);
      NormNext(c, m);
      SumBound(ProductCoeff(c, s, k, m - 1), c[m - 1] * y, eta, OneNorm(c[..m - 1]), Abs(c[m - 1]));
    }
  }

  lemma NormNone(c: seq<int>)
    ensures Abs(0) == 0 && OneNorm(c[..0]) == 0
  {
  }

  lemma AbsNegated(y: int)
    ensures Abs(-y) == Abs(y)
  {
  }

  /** c . s stays within beta = tau eta for every sampled challenge and every s within eta. */
  lemma ChallengeBelowBeta(p: Params, signs: Lane64, tape: seq<byte>, s: Poly)
    requires Walk(p, ZeroPoly(), signs, 256 - p.Tau(), tape).Some? && InRange(s, -(p.Eta() as int), p.Eta())
    ensures InRange(Product(Walk(p, ZeroPoly(), signs, 256 - p.Tau(), tape).value, s), -(p.Beta() as int), p.Beta())
  {
    hide Walk, OneNorm, ProductCoeff;
    BallWeight(p, signs, tape);
    var c := Walk(p, ZeroPoly(), signs, 256 - p.Tau(), tape).value;
    assert c[..256] == c;
    forall k | 0 <= k < 256 ensures -(p.Beta() as int) <= Product(c, s)[k] <= p.Beta() {
      CoeffBound(c, s, k, 256, p.Eta());
    }
  }
}
