/** HQC's fixed-weight vectors: Barrett reduction, the two samplers of distinct positions, and the
    constant-time write of a support into words. */
module HqcSamplers {
  import opened ModArith
  import opened Bits
  import opened BinaryPoly

  const WORD: nat := 0x1_0000_0000

  datatype HqcParams = Hqc1 | Hqc3 | Hqc5 {
    /** The ring's degree, Barrett's floor(2^32 / N) and the threshold of the 24-bit rejection. */
    function N(): nat { match this case Hqc1 => 17669 case Hqc3 => 35851 case Hqc5 => 57637 }
    function Mu(): nat { match this case Hqc1 => 243079 case Hqc3 => 119800 case Hqc5 => 74517 }
    function Thresh(): nat { match this case Hqc1 => 16767881 case Hqc3 => 16742417 case Hqc5 => 16772367 }
    function NW(): nat { N() / 64 + 1 }
  }

  /** The constants are the quotients they stand for. */
  lemma ConstantsAre(p: HqcParams)
    ensures p.Mu() == WORD / p.N() && p.Thresh() == 0x100_0000 / p.N() * p.N() && p.N() % 64 != 0
  {
    match p case Hqc1 => case Hqc3 => case Hqc5 =>
  }

  // ------------------------------------------------------------ Barrett

  /** x mod N for x below 2^24, without a division. */
  function Barrett(p: HqcParams, x: nat): int {
    var q := (x * p.Mu()) / WORD;
    var r := (x - q * p.N()) % WORD;
    var ge := if (r - p.N()) % WORD >= 0x8000_0000 then 0 else 1;
    r - ge * p.N()
  }

  lemma QuotientNear(p: HqcParams, x: nat)
    requires x < 0x100_0000
    ensures var q := (x * p.Mu()) / WORD;
      0 <= x - q * p.N() < 2 * p.N()
  {
    match p
    case Hqc1 =>
    case Hqc3 =>
    case Hqc5 =>
  }

  /** Barrett's steps are the true remainder. */
  lemma BarrettIs(p: HqcParams, x: nat)
    requires x < 0x100_0000
    ensures Barrett(p, x) == x % p.N() < p.N()
  {
    QuotientNear(p, x);
    var q := (x * p.Mu()) / WORD;
    var r := x - q * p.N();
    DivModUnique(r, WORD, 0, r);
    if r < p.N() {
      DivModUnique(r - p.N(), WORD, -1, r - p.N() + WORD);
      DivModUnique(x, p.N(), q, r);
    } else {
      DivModUnique(r - p.N(), WORD, 0, r - p.N());
      DivModUnique(x, p.N(), q + 1, r - p.N());
    }
  }

  // ------------------------------------------------------------ positions

  predicate Distinct(s: seq<nat>) { forall i, j | 0 <= i < j < |s| :: s[i] != s[j] }

  predicate Below(s: seq<nat>, n: nat) { forall i | 0 <= i < |s| :: s[i] < n }

  /** 1 exactly when d is not 0: the top bit of d | (0 - d). */
  function NonZero(d: nat): nat { if d >= 0x8000_0000 || (-(d as int)) % WORD >= 0x8000_0000 then 1 else 0 }

  lemma NonZeroIs(d: nat)
    requires d < WORD
    ensures NonZero(d) == if d == 0 then 0 else 1
  {
    if 0 < d { DivModUnique(-(d as int), WORD, -1, WORD - d); } else { DivModUnique(0, WORD, 0, 0); }
  }

  function Xor32(a: nat, b: nat): nat { ToNat(Xor(OfNat(a, 32), OfNat(b, 32))) }

  lemma Xor32Zero(a: nat, b: nat)
    requires a < WORD && b < WORD
    ensures Xor32(a, b) < WORD && (Xor32(a, b) == 0 <==> a == b)
  {
    Pow2Word();
    hide ToNat, OfNat, Pow2;
    var w: nat :| w == 32;
    var u, v := OfNat(a, w), OfNat(b, w);
    ToNatBound(Xor(u, v));
    OfNatToNat(a, w);
    OfNatToNat(b, w);
    ZeroWord(Xor(u, v));
    XorNothing(u, v);
  }

  lemma XorNothing(u: BitSeq, v: BitSeq)
    requires |u| == |v|
    ensures (forall i | 0 <= i < |u| :: !Xor(u, v)[i]) <==> u == v
  {
    if forall i | 0 <= i < |u| :: !Xor(u, v)[i] {
      forall i | 0 <= i < |u| ensures u[i] == v[i] { assert !Xor(u, v)[i]; }
    }
  }

  lemma Pow2Word()
    ensures Pow2(32) == WORD
  {
    Pow2Values();
    Pow2Add(16, 16);
    Pow2Add(8, 8);
  }

  lemma {:induction false} ZeroWord(x: BitSeq)
    ensures ToNat(x) == 0 <==> forall i | 0 <= i < |x| :: !x[i]
    decreases |x|
  {
    if x != [] {
      ZeroWord(x[1..]);
      if ToNat(x) == 0 {
        forall i | 0 <= i < |x| ensures !x[i] { if i > 0 { assert x[i] == x[1..][i - 1]; } }
      }
      if forall i | 0 <= i < |x| :: !x[i] { assert forall i | 0 <= i < |x[1..]| :: !x[1..][i]; }
    }
  }

  /** 1 when a and b are equal: 1 ^ ((d | (0 - d)) >> 31), d = a ^ b. */
  function EqualBit(a: nat, b: nat): nat { 1 - NonZero(Xor32(a, b)) }

  lemma EqualBitIs(a: nat, b: nat)
    requires a < WORD && b < WORD
    ensures EqualBit(a, b) == if a == b then 1 else 0
  {
    hide NonZero, Xor32;
    Xor32Zero(a, b);
    NonZeroIs(Xor32(a, b));
  }

  /** Whether a value is among the positions from `from` on, gathered without a branch. */
  method Among(s: seq<nat>, from: nat, to: nat, x: nat) returns (found: nat)
    requires from <= to <= |s| && Below(s, WORD) && x < WORD
    ensures found == if x in s[from..to] then 1 else 0
  {
    hide EqualBit;
    found := 0;
    for k := from to to
      invariant found == if x in s[from..k] then 1 else 0
    {
      EqualBitIs(s[k], x);
      assert s[from..k + 1] == s[from..k] + [s[k]];
      found := if EqualBit(s[k], x) == 1 then 1 else found;
    }
  }

  // ------------------------------------------------------------ the reduction by a running modulus

  /** Barrett with floor(2^32 / n) and one conditional subtraction, in 32-bit words. */
  function Reduce(n: nat, a: nat): nat
    requires 0 < n < WORD
  {
    var m := (WORD / n) % WORD;
    var q := a * m / WORD;
    var r := (a - q * n) % WORD;
    var s := (r - n) % WORD;
    (s + (if s >= 0x8000_0000 then n else 0)) % WORD
  }

  /** The quotient's error, cross-multiplied. */
  lemma ReduceError(w: int, n: int, a: int, m: int, t: int, q: int, u: int)
    requires w == m * n + t && a * m == q * w + u
    ensures (a - q * n) * w == u * n + a * t
  {
    assert a * w == a * (m * n) + a * t;
    assert a * (m * n) == (a * m) * n;
    assert (a * m) * n == (q * w) * n + u * n;
    assert (q * w) * n == (q * n) * w;
    assert (a - q * n) * w == a * w - (q * n) * w;
  }

  lemma ReduceNear(n: nat, a: nat, m: nat, t: nat, q: int, u: nat)
    requires WORD == m * n + t && t < n && a * m == q * WORD + u && u < WORD && a < WORD
    ensures 0 <= a - q * n < 2 * n
  {
    ReduceError(WORD, n, a, m, t, q, u);
    ProductsBelow(u, a, t, n);
    MulMono(0, u, n);
    MulMono(0, t, a);
    ScaledBetween(a - q * n, 2 * n, u * n + t * a);
  }

  lemma ScaledBetween(d: int, n: int, y: int)
    requires d * WORD == y && 0 <= y < n * WORD
    ensures 0 <= d < n
  {
  }

  lemma ProductsBelow(u: nat, a: nat, t: nat, n: nat)
    requires u < WORD && a < WORD && t < n
    ensures u * n + a * t < 2 * n * WORD
  {
    MulMono(u, WORD - 1, n);
    MulMono(t, n, a);
    MulMono(a, WORD, n);
    assert (WORD - 1) * n == WORD * n - n && a * t == t * a;
  }

  lemma ReduceWhole(n: nat, a: nat)
    requires 1 < n <= 0x8000_0000 && a < WORD
    ensures Reduce(n, a) == a % n
  {
    var m, t := WORD / n, WORD % n;
    assert WORD == m * n + t;
    MultiplierFits(n, m, t);
    DivModUnique(m, WORD, 0, m);
    MulMono(0, m, a);
    var q, u := a * m / WORD, a * m % WORD;
    ReduceNear(n, a, m, t, q, u);
    MulMono(0, q, n);
    DivModUnique(a - q * n, WORD, 0, a - q * n);
    ReduceEnd(n, a, q, a - q * n);
  }

  lemma MultiplierFits(n: nat, m: nat, t: nat)
    requires 1 < n && WORD == m * n + t
    ensures m < WORD
  {
    if m >= WORD { MulMono(WORD, m, n); }
  }

  /** The steps are the true remainder, except by a modulus of 1, whose 2^32 / 1 no longer fits. */
  lemma ReduceIs(n: nat, a: nat)
    requires 0 < n <= 0x8000_0000 && a < WORD
    ensures Reduce(n, a) == a % n <==> n > 1 || a <= 1
  {
    if n > 1 {
      hide Reduce;
      ReduceWhole(n, a);
    }
  }

  lemma ReduceEnd(n: nat, a: nat, q: nat, r: nat)
    requires 1 < n <= 0x8000_0000 && a < WORD && r == a - q * n && r < 2 * n && r < WORD
    ensures var s := (r - n) % WORD;
      (s + (if s >= 0x8000_0000 then n else 0)) % WORD == a % n
  {
    if r < n {
      DivModUnique(r - n, WORD, -1, r - n + WORD);
      DivModUnique(r + WORD, WORD, 1, r);
      DivModUnique(a, n, q, r);
    } else {
      DivModUnique(r - n, WORD, 0, r - n);
      DivModUnique(a, n, q + 1, r - n);
    }
  }

  // ------------------------------------------------------------ Sendrier's sampler

  /** How a draw is brought below N - i: scaled by a multiplication, or reduced. */
  datatype Rule = Scaled | Reduced

  /** i + floor(r (N - i) / 2^32), or i + r mod (N - i). */
  function Drawn(rule: Rule, n: nat, i: nat, r: nat): int
    requires i < n
  {
    match rule
    case Scaled => i + (r * (n - i)) / WORD
    case Reduced => i + r % (n - i)
  }

  lemma DrawnRange(rule: Rule, n: nat, i: nat, r: nat)
    requires i < n && r < WORD
    ensures i <= Drawn(rule, n, i, r) < n
  {
    if rule == Scaled {
      var m := n - i;
      MulMono(r, WORD - 1, m);
      MulMono(0, r, m);
      TopWord(r * m, m);
    }
  }

  lemma TopWord(y: nat, m: nat)
    requires 0 < m && y <= (WORD - 1) * m
    ensures 0 <= y / WORD < m
  {
  }

  /** A repeated position gives way to its own index. */
  function Repaired(draw: int, i: nat, later: seq<nat>): int { if draw in later then i else draw }

  /** One draw by the code's steps. */
  method DrawOne(rule: Rule, n: nat, i: nat, r: nat) returns (d: nat)
    requires i < n <= 0x8000_0000 && r < WORD && (rule == Reduced ==> i + 1 < n)
    ensures d == Drawn(rule, n, i, r) && i <= d < n
  {
    DrawnRange(rule, n, i, r);
    match rule
    case Scaled => d := i + (r * (n - i)) / WORD;
    case Reduced =>
      ReduceIs(n - i, r);
      d := i + Reduce(n - i, r);
  }

  /** The initial draws. */
  method DrawAll(rule: Rule, p: HqcParams, r: seq<nat>) returns (a: array<nat>)
    requires Drawable(rule, p, r)
    ensures fresh(a) && a.Length == |r|
    ensures forall k | 0 <= k < |r| :: a[k] == Drawn(rule, p.N(), k, r[k]) && k <= a[k] < p.N()
  {
    hide Drawn;
    var n := |r|;
    a := new nat[n](_ => 0);
    for i := 0 to n
      invariant forall k | 0 <= k < i :: a[k] == Drawn(rule, p.N(), k, r[k]) && k <= a[k] < p.N()
    {
      a[i] := DrawOne(rule, p.N(), i, r[i]);
    }
  }

  /** One 32-bit word a position; the reducing rule needs a modulus above 1 to the end. */
  predicate Drawable(rule: Rule, p: HqcParams, r: seq<nat>) {
    1 <= |r| <= p.N() && Below(r, WORD) && (rule == Reduced ==> |r| < p.N())
  }

  /** Below i the draws, from i on repaired and distinct. */
  ghost predicate Repairing(s: seq<nat>, rule: Rule, p: HqcParams, r: seq<nat>, i: nat) {
    |s| == |r| <= p.N() && i <= |s| && Below(s, p.N()) && (forall k | 0 <= k < |s| :: k <= s[k])
    && (forall k | 0 <= k < i :: s[k] == Drawn(rule, p.N(), k, r[k]))
    && Tail(s, i) && forall k | i <= k < |s| :: s[k] == Repaired(Drawn(rule, p.N(), k, r[k]), k, s[k + 1..])
  }

  /** Positions by a backward repair: distinct, below N, and each the draw unless it recurs later. */
  method FixedWeight(rule: Rule, p: HqcParams, r: seq<nat>) returns (support: seq<nat>)
    requires Drawable(rule, p, r)
    ensures |support| == |r| && Distinct(support) && Below(support, p.N())
    ensures forall i | 0 <= i < |r| :: support[i] == Repaired(Drawn(rule, p.N(), i, r[i]), i, support[i + 1..])
  {
    hide Drawn, Repaired;
    var a := DrawAll(rule, p, r);
    var ii: nat := |r| - 1;
    RepairStart(a[..], rule, p, r);
    while ii > 0
      invariant ii < |r| && Repairing(a[..], rule, p, r, ii)
    {
      ii := ii - 1;
      RepairOne(rule, p, a, ii, r);
    }
    support := a[..];
  }

  lemma RepairStart(s: seq<nat>, rule: Rule, p: HqcParams, r: seq<nat>)
    requires 1 <= |r| == |s| <= p.N() && forall k | 0 <= k < |r| :: s[k] == Drawn(rule, p.N(), k, r[k]) &&
                                           k <= s[k] < p.N()
    ensures Repairing(s, rule, p, r, |r| - 1)
  {
    hide Drawn;
    assert s[|s|..] == [];
  }

  /** From i on the positions are distinct. */
  predicate Tail(s: seq<nat>, i: nat) { forall j, k | i <= j < k < |s| :: s[j] != s[k] }

  /** One step of the repair: every later position is at least its index, so i is free. */
  method RepairOne(ghost rule: Rule, ghost p: HqcParams, a: array<nat>, i: nat, ghost r: seq<nat>)
    requires i + 1 < a.Length && Repairing(a[..], rule, p, r, i + 1)
    modifies a
    ensures Repairing(a[..], rule, p, r, i)
  {
    hide Drawn, EqualBit, Repairing;
    ghost var s := a[..];
    SmallBelow(rule, p, s, r, i + 1);
    var found := Among(a[..], i + 1, a.Length, a[i]);
    assert s[i + 1..a.Length] == s[i + 1..];
    a[i] := if found == 1 then i else a[i];
    RepairStep(s, a[..], rule, p, r, i);
  }

  lemma RepairStep(s: seq<nat>, t: seq<nat>, rule: Rule, p: HqcParams, r: seq<nat>, i: nat)
    requires i + 1 < |s| && Repairing(s, rule, p, r, i + 1) && t == s[i := Repaired(s[i], i, s[i + 1..])]
    ensures Repairing(t, rule, p, r, i)
  {
    hide Drawn;
    TailMore(s, t, i);
    forall k | i <= k < |s| ensures t[k] == Repaired(Drawn(rule, p.N(), k, r[k]), k, t[k + 1..]) {
      assert t[k + 1..] == s[k + 1..];
    }
  }

  lemma SmallBelow(rule: Rule, p: HqcParams, s: seq<nat>, r: seq<nat>, i: nat)
    requires Repairing(s, rule, p, r, i)
    ensures Below(s, WORD)
  {
  }

  lemma TailMore(s: seq<nat>, t: seq<nat>, i: nat)
    requires i + 1 < |s| && Tail(s, i + 1) && t == s[i := Repaired(s[i], i, s[i + 1..])]
    requires forall k | i < k < |s| :: k <= s[k]
    ensures Tail(t, i)
  {
    forall k | i < k < |s| ensures t[i] != t[k] {
      assert s[k] == s[i + 1..][k - i - 1];
    }
  }

  // ------------------------------------------------------------ the uniform sampler

  /** The positions after each accepted sample, repeats dropped, until there are w of them. */
  function Collected(p: HqcParams, acc: seq<nat>, samples: seq<nat>, w: nat): (s: seq<nat>)
    requires Below(samples, 0x100_0000)
    decreases |samples|
  {
    if |acc| >= w || samples == [] then acc else
      var x := samples[0];
      Collected(p, if x >= p.Thresh() || x % p.N() in acc then acc else acc + [x % p.N()], samples[1..], w)
  }

  /** One sample: accepted below the threshold, reduced, kept unless it repeats. */
  method TakeSample(p: HqcParams, support: seq<nat>, x: nat) returns (next: seq<nat>)
    requires x < 0x100_0000 && Distinct(support) && Below(support, p.N())
    ensures next == if x >= p.Thresh() || x % p.N() in support then support else support + [x % p.N()]
    ensures Distinct(next) && Below(next, p.N())
  {
    hide Barrett;
    if x >= p.Thresh() { return support; }
    BarrettIs(p, x);
    var s := Barrett(p, x);
    assert Below(support, WORD);
    var dup := Among(support, 0, |support|, s);
    assert support[0..|support|] == support;
    next := if dup == 1 then support else support + [s];
  }

  /** The rejection loop over a stretch of 24-bit samples; `ok` says it reached the weight. */
  method FixedWeightUniform(p: HqcParams, samples: seq<nat>, w: nat) returns (ok: bool, support: seq<nat>)
    requires Below(samples, 0x100_0000)
    ensures support == Collected(p, [], samples, w) && |support| <= w && (ok <==> |support| == w)
    ensures Distinct(support) && Below(support, p.N())
  {
    support := [];
    var j := 0;
    while j < |samples| && |support| < w
      invariant 0 <= j <= |samples| && |support| <= w && Distinct(support) && Below(support, p.N())
      invariant Collected(p, support, samples[j..], w) == Collected(p, [], samples, w)
    {
      hide Distinct, Below;
      SampleBelow(samples, j);
      support := TakeSample(p, support, samples[j]);
      j := j + 1;
    }
    ok := |support| == w;
  }

  lemma SampleBelow(samples: seq<nat>, j: nat)
    requires Below(samples, 0x100_0000) && j < |samples|
    ensures samples[j] < 0x100_0000 && Below(samples[j..], 0x100_0000) && Below(samples[j + 1..], 0x100_0000)
    ensures samples[j..][0] == samples[j] && samples[j..][1..] == samples[j + 1..]
  {
  }

  // ------------------------------------------------------------ the support in words

  /** 1 << k by six fixed shifts. */
  function OneHot(k: nat, stage: nat): (b: Lane64)
    requires stage <= 6
    decreases stage
  {
    if stage == 0 then Zeros(64)[0 := true] else
      var b := OneHot(k, stage - 1);
      if BitOf(k, stage - 1) then Shl(b, Pow2(stage - 1)) else b
  }

  lemma {:induction false} OneHotIs(k: nat, stage: nat)
    requires stage <= 6
    ensures forall i | 0 <= i < 64 :: OneHot(k, stage)[i] == (i == k % Pow2(stage))
    decreases stage
  {
    if stage == 0 {
      assert k % 1 == 0;
    } else {
      OneHotIs(k, stage - 1);
      ModPow2Step(k, stage - 1);
      CongMod(k, Pow2(stage - 1));
    }
  }

  /** The bit of one position in word i, clear elsewhere: bit & (0 - (i == word)). */
  function PositionWord(pos: nat, i: nat): (w: Lane64) {
    And(OneHot(pos % 64, 6), if EqualBit(i, pos / 64) == 1 then Ones(64) else Zeros(64))
  }

  lemma PositionBit(pos: nat, i: nat, j: nat)
    requires pos / 64 < WORD && i < WORD && j < 64
    ensures PositionWord(pos, i)[j] == (64 * i + j == pos)
  {
    hide EqualBit, OneHot;
    EqualBitIs(i, pos / 64);
    OneHotIs(pos % 64, 6);
    assert Pow2(6) == 64;
    assert (pos % 64) % 64 == pos % 64;
  }

  /** v's set bits are exactly the first n positions. */
  ghost predicate Holds(v: seq<Lane64>, s: seq<nat>, n: nat) {
    n <= |s| && forall i: nat, j: nat | i < |v| && j < 64 :: v[i][j] == (64 * i + j in s[..n])
  }

  /** One position, or-ed into every word behind a mask. */
  method WritePosition(v: array<Lane64>, ghost s: seq<nat>, n: nat, pos: nat)
    requires n < |s| && s[n] == pos && pos < 64 * v.Length && v.Length < WORD && Holds(v[..], s, n)
    modifies v
    ensures Holds(v[..], s, n + 1)
  {
    hide PositionWord;
    ghost var v0 := v[..];
    for i := 0 to v.Length
      invariant forall k | 0 <= k < v.Length :: v[k] == if k < i then Or(v0[k], PositionWord(pos, k)) else v0[k]
    {
      v[i] := Or(v[i], PositionWord(pos, i));
    }
    assert s[..n + 1] == s[..n] + [pos];
    forall i: nat, j: nat | i < v.Length && j < 64 ensures v[i][j] == (64 * i + j in s[..n + 1]) {
      PositionBit(pos, i, j);
    }
  }

  /** The support as a vector. */
  method WriteSupport(p: HqcParams, s: seq<nat>) returns (v: seq<Lane64>)
    requires Below(s, p.N())
    ensures |v| == p.NW() && Holds(v, s, |s|)
  {
    hide Holds;
    var a := new Lane64[p.NW()](_ => Zeros(64));
    HoldsNone(a[..], s);
    for n := 0 to |s|
      invariant Holds(a[..], s, n)
    {
      InWords(p, s, n);
      WritePosition(a, s, n, s[n]);
    }
    v := a[..];
  }

  lemma InWords(p: HqcParams, s: seq<nat>, n: nat)
    requires Below(s, p.N()) && n < |s|
    ensures s[n] < 64 * p.NW() && p.NW() < WORD
  {
  }

  lemma HoldsNone(v: seq<Lane64>, s: seq<nat>)
    requires forall i | 0 <= i < |v| :: v[i] == Zeros(64)
    ensures Holds(v, s, 0)
  {
  }

  // ------------------------------------------------------------ the weight

  /** How many of the first n coefficients are set. */
  function Weight(f: Poly, n: nat): nat { if n == 0 then 0 else Weight(f, n - 1) + B2I(f(n - 1)) }

  function Positions(s: seq<nat>, n: nat): (r: set<nat>) { set i: nat | i < n && i in s }

  lemma {:induction false} WeightIsSize(f: Poly, s: seq<nat>, n: nat)
    requires forall i: nat | i < n :: f(i) == (i in s)
    ensures Weight(f, n) == |Positions(s, n)|
  {
    if n > 0 {
      WeightIsSize(f, s, n - 1);
      if n - 1 in s {
        assert Positions(s, n) == Positions(s, n - 1) + {n - 1};
      } else {
        assert Positions(s, n) == Positions(s, n - 1);
      }
    }
  }

  lemma {:induction false} DistinctSize(s: seq<nat>, n: nat)
    requires Distinct(s) && Below(s, n)
    ensures |Positions(s, n)| == |s|
    decreases |s|
  {
    if s == [] {
      assert Positions(s, n) == {};
    } else {
      var t := s[..|s| - 1];
      var x := s[|s| - 1];
      DistinctSize(t, n);
      assert s == t + [x];
      assert x !in t;
      assert Positions(s, n) == Positions(t, n) + {x};
    }
  }

  /** The vector of w distinct positions below N has weight exactly w, all of it below N. */
  lemma SupportWeight(p: HqcParams, s: seq<nat>, v: seq<Lane64>)
    requires Distinct(s) && Below(s, p.N()) && |v| == p.NW() && Holds(v, s, |s|)
    ensures Weight(Words(v), p.N()) == |s| == Weight(Words(v), 64 * |v|)
  {
    forall i: nat | i < 64 * |v| ensures Words(v)(i) == (i in s) {
      assert 64 * (i / 64) + i % 64 == i && s[..|s|] == s;
    }
    hide Words, Holds;
    WeightIsSize(Words(v), s, p.N());
    WeightIsSize(Words(v), s, 64 * |v|);
    DistinctSize(s, p.N());
    DistinctSize(s, 64 * |v|);
  }
}
