/** How the samplers spend their randomness: how many 32-bit words draw each HQC position under either rule, how many
    24-bit samples add each position, and how many 64-bit numbers give each masking residue. */
module EvenDraws {
  import opened ModArith
  import opened HqcSamplers
  import opened BoundedDraw

  // ------------------------------------------------------------ the scaled draw

  /** The words that draw v at index i. */
  function Draws(rule: Rule, n: nat, i: nat, v: int): (r: set<nat>)
    requires i < n
  {
    set r: nat | r < 0x1_0000_0000 && Drawn(rule, n, i, r) == v
  }

  /** floor or ceiling of w / m. */
  predicate FairShare(w: nat, c: int, m: int)
    requires 0 < m
  {
    w / m <= c <= (w + m - 1) / m
  }

  /** The numbers below w that scale to u below m. */
  function Scales(w: nat, m: nat, u: nat): (r: set<nat>)
    requires 0 < w
  {
    set r: nat | r < w && r * m / w == u
  }

  /** They are a stretch. */
  lemma ScaledStretch(w: nat, m: nat, u: nat, r: nat)
    requires 0 < w && 0 < m && u < m
    ensures 0 <= Least(u * w, m) && 0 <= Least((u + 1) * w, m)
    ensures r < w && r * m / w == u <==> Least(u * w, m) <= r < Least((u + 1) * w, m)
  {
    LeastIs(u * w, m, r);
    LeastIs((u + 1) * w, m, r);
    hide Least;
    InBlockOf(w, r * m, u);
    if r * m < (u + 1) * w && r >= w {
      MulMono(u + 1, m, w);
      MulMono(w, r, m);
    }
  }

  lemma InBlockOf(w: nat, y: nat, u: nat)
    requires 0 < w
    ensures y / w == u <==> u * w <= y < (u + 1) * w
  {
    assert (u + 1) * w == u * w + w;
    if u * w <= y < (u + 1) * w { DivModUnique(y, w, u, y - u * w); }
    assert y == w * (y / w) + y % w;
    CongMod(y, w);
    assert w * u == u * w;
  }

  /** As long as the share. */
  lemma StretchLength(w: nat, m: nat, u: nat)
    requires 0 < m
    ensures FairShare(w, Least((u + 1) * w, m) - Least(u * w, m), m)
  {
    var c, e := Least(u * w, m), Least((u + 1) * w, m);
    var k, h := w / m, (w + m - 1) / m;
    LeastIs(u * w, m, c);
    LeastIs(u * w, m, c - 1);
    LeastIs((u + 1) * w, m, c + h);
    LeastIs((u + 1) * w, m, c - 1 + k);
    hide Least;
    assert (u + 1) * w == u * w + w;
    ShareSteps(w, c, m, u * w, k, h);
  }

  lemma ShareSteps(w: nat, c: int, m: int, b: int, k: int, h: int)
    requires 0 < m && k == w / m && h == (w + m - 1) / m && c * m >= b && (c - 1) * m < b
    ensures (c + h) * m >= b + w && (c - 1 + k) * m < b + w
  {
    assert w == m * k + w % m;
    assert w + m - 1 == m * h + (w + m - 1) % m;
    CongMod(w, m);
    CongMod(w + m - 1, m);
    assert (c + h) * m == c * m + m * h;
    assert (c - 1 + k) * m == (c - 1) * m + m * k;
  }

  lemma ScalesCount(w: nat, m: nat, u: nat)
    requires 0 < w && u < m
    ensures FairShare(w, |Scales(w, m, u)|, m)
  {
    hide Least, FairShare, Interval;
    ScaledStretch(w, m, u, 0);
    StretchLength(w, m, u);
    var c, e := Least(u * w, m), Least((u + 1) * w, m);
    SharePositive(w, e - c, m);
    var s := Scales(w, m, u);
    forall r: nat ensures r in s <==> r in Interval(c, e - c) { ScaledStretch(w, m, u, r); }
    assert s == Interval(c, e - c);
    IntervalSize(c, e - c);
  }

  lemma SharePositive(w: nat, c: int, m: int)
    requires 0 < m && FairShare(w, c, m)
    ensures 0 <= c
  {
    var k := w / m;
    assert w == m * k + w % m;
    CongMod(w, m);
    if k < 0 { MulMono(k, -1, m); }
  }

  lemma ScaledCount(n: nat, i: nat, v: nat)
    requires i <= v < n
    ensures FairShare(WORD, |Draws(Scaled, n, i, v)|, n - i)
  {
    hide FairShare;
    ScalesCount(WORD, n - i, v - i);
    assert Draws(Scaled, n, i, v) == Scales(WORD, n - i, v - i);
  }

  /** The residue two stream words give, by the 64-bit number they spell: each of the q residues from floor or ceiling
      of 2^64 / q of them. */
  lemma ResiduesAreEven(q: nat, v: nat)
    requires v < q
    ensures var s := set r: nat | r < 0x1_0000_0000_0000_0000 && r * q / 0x1_0000_0000_0000_0000 == v;
      0x1_0000_0000_0000_0000 / q <= |s| <= (0x1_0000_0000_0000_0000 + q - 1) / q
  {
    ScalesCount(W64, q, v);
  }

  // ------------------------------------------------------------ the reduced draw

  /** u, u + m, ..., u + (c - 1) m. */
  function Class(u: nat, m: nat, c: nat): (s: set<nat>) {
    if c == 0 then {} else Class(u, m, c - 1) + {u + (c - 1) * m}
  }

  lemma {:induction false} ClassIs(u: nat, m: nat, c: nat, x: nat)
    requires u < m
    ensures x in Class(u, m, c) <==> x % m == u && x < u + c * m
    decreases c
  {
    if c == 0 {
      if x < u { DivModUnique(x, m, 0, x); }
    } else {
      ClassIs(u, m, c - 1, x);
      ClassTop(u, m, c, x);
    }
  }

  lemma ClassTop(u: nat, m: nat, c: nat, x: nat)
    requires u < m && 0 < c
    ensures x == u + (c - 1) * m <==> x % m == u && u + (c - 1) * m <= x < u + c * m
    ensures u + c * m == u + (c - 1) * m + m
  {
    var b := (c - 1) * m;
    assert c * m == b + m;
    if u + b <= x < u + b + m {
      if x < b + m { DivModUnique(x, m, c - 1, x - b); } else { DivModUnique(x, m, c, x - b - m); }
    }
  }

  lemma {:induction false} ClassSize(u: nat, m: nat, c: nat)
    requires u < m
    ensures |Class(u, m, c)| == c
    decreases c
  {
    if c > 0 {
      ClassSize(u, m, c - 1);
      var s, x := Class(u, m, c - 1), u + (c - 1) * m;
      ClassIs(u, m, c - 1, x);
      hide Class;
      OneMore(s, x);
    }
  }

  lemma OneMore(s: set<nat>, x: nat)
    requires x !in s
    ensures |s + {x}| == |s| + 1
  {
  }

  /** How many numbers below b leave the remainder u. */
  lemma ClassBelow(u: nat, m: nat, b: nat) returns (c: nat)
    requires u < m <= b
    ensures b / m <= c <= (b + m - 1) / m && (b % m == 0 ==> c == b / m)
    ensures forall x: nat :: x in Class(u, m, c) <==> x % m == u && x < b
  {
    var k, t := b / m, b % m;
    assert b == m * k + t;
    CongMod(b, m);
    if k < 0 { MulMono(k, -1, m); }
    c := if u < t then k + 1 else k;
    CeilingIs(b, m, k, t);
    hide Class;
    forall x: nat ensures x in Class(u, m, c) <==> x % m == u && x < b {
      ClassIs(u, m, c, x);
      if x % m == u { BelowBound(u, m, k, t, x); }
    }
  }

  lemma CeilingIs(b: nat, m: nat, k: nat, t: nat)
    requires 0 < m && b == m * k + t && t < m
    ensures (b + m - 1) / m == if t == 0 then k else k + 1
  {
    assert m * k == k * m && m * k + m == (k + 1) * m;
    if t == 0 { DivModUnique(b + m - 1, m, k, m - 1); } else { DivModUnique(b + m - 1, m, k + 1, t - 1); }
  }

  lemma BelowBound(u: nat, m: nat, k: nat, t: nat, x: nat)
    requires u < m && t < m && x % m == u
    ensures x < u + (if u < t then k + 1 else k) * m <==> x < m * k + t
  {
    var j := x / m;
    assert x == m * j + u;
    if j < k { MulMono(j + 1, k, m); } else if j > k { MulMono(k + 1, j, m); }
    assert (k + 1) * m == k * m + m && m * k == k * m && m * j == j * m;
  }

  lemma ReducedCount(n: nat, i: nat, v: nat)
    requires i <= v < n <= 0x1_0000_0000
    ensures FairShare(WORD, |Draws(Reduced, n, i, v)|, n - i)
  {
    var m, u := n - i, v - i;
    var c := ClassBelow(u, m, WORD);
    var s := Draws(Reduced, n, i, v);
    forall r: nat ensures r in s <==> r in Class(u, m, c) { }
    assert s == Class(u, m, c);
    ClassSize(u, m, c);
  }

  // ------------------------------------------------------------ both rules

  /** Each of the n - i positions open at index i is drawn by floor or ceiling of 2^32 / (n - i) words. */
  lemma DrawsAreEven(rule: Rule, n: nat, i: nat, v: nat)
    requires i <= v < n <= 0x1_0000_0000
    ensures 0x1_0000_0000 / (n - i) <= |Draws(rule, n, i, v)| <= (0x1_0000_0000 + (n - i) - 1) / (n - i)
  {
    hide Drawn;
    match rule
    case Scaled => ScaledCount(n, i, v);
    case Reduced => ReducedCount(n, i, v);
  }

  /** The scaled draw keeps the order of the words. */
  lemma ScaledMonotone(n: nat, i: nat, r: nat, s: nat)
    requires i < n && r <= s
    ensures Drawn(Scaled, n, i, r) <= Drawn(Scaled, n, i, s)
  {
    MulMono(r, s, n - i);
    QuotientMono(r * (n - i), s * (n - i));
  }

  lemma QuotientMono(x: int, y: int)
    requires x <= y
    ensures x / WORD <= y / WORD
  {
  }

  // ------------------------------------------------------------ the rejection sampler

  /** The 24-bit samples that add position v to the positions found so far. */
  function Adds(p: HqcParams, found: seq<nat>, w: nat, v: nat): (r: set<nat>) {
    set x: nat | x < 0x100_0000 && Added(p, found, w, v, x)
  }

  predicate Added(p: HqcParams, found: seq<nat>, w: nat, v: nat, x: nat) {
    x < 0x100_0000 && Collected(p, found, [x], w) == found + [v]
  }

  lemma AddedIs(p: HqcParams, found: seq<nat>, w: nat, v: nat, x: nat)
    requires |found| < w && v !in found && x < 0x100_0000
    ensures Added(p, found, w, v, x) <==> x % p.N() == v && x < p.Thresh()
  {
    var next := if x >= p.Thresh() || x % p.N() in found then found else found + [x % p.N()];
    assert [x][0] == x && [x][1..] == [];
    assert Collected(p, found, [x], w) == Collected(p, next, [], w) == next;
    if x < p.Thresh() && x % p.N() !in found { assert next[|found|] == x % p.N(); }
    assert |found + [v]| == |found| + 1 && (found + [v])[|found|] == v;
  }

  /** Whatever has been found, every position still missing is added by exactly floor(2^24 / N) samples. */
  lemma AddsAreEqual(p: HqcParams, found: seq<nat>, w: nat, v: nat)
    requires |found| < w && v !in found && v < p.N()
    ensures |Adds(p, found, w, v)| == 0x100_0000 / p.N()
  {
    hide Added;
    ConstantsAre(p);
    var c := ClassBelow(v, p.N(), p.Thresh());
    ThresholdSplits(p);
    var s := Adds(p, found, w, v);
    forall x: nat ensures x in s <==> x in Class(v, p.N(), c) { if x < 0x100_0000 { AddedIs(p, found, w, v, x); } }
    assert s == Class(v, p.N(), c);
    ClassSize(v, p.N(), c);
  }

  lemma ThresholdSplits(p: HqcParams)
    ensures p.N() <= p.Thresh() < 0x100_0000 && p.Thresh() % p.N() == 0 && p.Thresh() / p.N() == 0x100_0000 / p.N()
  {
    match p case Hqc1 => case Hqc3 => case Hqc5 =>
  }
}
