/** The additive FFT as the decoder runs it: buffers filled in place, one recursion level a basis
    element. */
module FftRun {
  import opened ModArith
  import Base = Radix
  import opened GaloisField
  import opened FieldPoly
  import opened AdditiveFft

  // ------------------------------------------------------------ subset sums

  /** The sum of the set's elements picked by the bits of i. */
  function SubsetSum(set0: seq<Gf>, n: nat, i: nat): Gf
    requires n <= |set0| && i < Pow2(n)
    decreases n
  {
    if n == 0 then ZERO
    else if i < Pow2(n - 1) then SubsetSum(set0, n - 1, i)
    else Add(set0[n - 1], SubsetSum(set0, n - 1, i - Pow2(n - 1)))
  }

  lemma SumLow(s: seq<Gf>, n: nat, i: nat)
    requires 0 < n <= |s| && i < Pow2(n - 1)
    ensures i < Pow2(n) && SubsetSum(s, n, i) == SubsetSum(s, n - 1, i)
    ensures i + Pow2(n - 1) < Pow2(n) && SubsetSum(s, n, i + Pow2(n - 1)) == Add(s[n - 1], SubsetSum(s, n - 1, i))
  {
  }

  /** Picking nothing. */
  lemma {:induction false} SumNone(s: seq<Gf>, n: nat)
    requires n <= |s|
    ensures SubsetSum(s, n, 0) == ZERO
    decreases n
  {
    if n > 0 { SumNone(s, n - 1); }
  }

  /** One more element: the sums so far, and each of them plus it. */
  method DoubleSums(ss: array<Gf>, s: seq<Gf>, n: nat)
    requires n < |s| && Pow2(n + 1) <= ss.Length && forall i | 0 <= i < Pow2(n) :: ss[i] == SubsetSum(s, n, i)
    modifies ss
    ensures forall i | 0 <= i < Pow2(n + 1) :: ss[i] == SubsetSum(s, n + 1, i)
  {
    hide Add;
    var h := Pow2(n);
    for j := 0 to h
      invariant forall i | 0 <= i < h :: ss[i] == SubsetSum(s, n, i)
      invariant forall i | h <= i < h + j :: ss[i] == SubsetSum(s, n + 1, i)
    {
      SumLow(s, n + 1, j);
      ss[h + j] := Add(s[n], ss[j]);
    }
  }

  method SubsetSums(s: seq<Gf>) returns (ss: array<Gf>)
    ensures fresh(ss) && ss.Length == Pow2(|s|) && forall i | 0 <= i < ss.Length :: ss[i] == SubsetSum(s, |s|, i)
  {
    hide Add;
    ss := new Gf[Pow2(|s|)](_ => ZERO);
    for n := 0 to |s|
      invariant forall i | 0 <= i < Pow2(n) && i < ss.Length :: ss[i] == SubsetSum(s, n, i)
    {
      Pow2Mono(n, |s|);
      Pow2Mono(n + 1, |s|);
      DoubleSums(ss, s, n);
    }
  }

  lemma {:induction false} SumScaled(s: seq<Gf>, t: seq<Gf>, c: Gf, n: nat, i: nat)
    requires n <= |s| && n <= |t| && i < Pow2(n) && forall k | 0 <= k < n :: t[k] == Mul(s[k], c)
    ensures SubsetSum(t, n, i) == Mul(SubsetSum(s, n, i), c)
    decreases n
  {
    hide Mul, Add;
    if n == 0 {
      MulZero(c);
    } else if i < Pow2(n - 1) {
      SumScaled(s, t, c, n - 1, i);
    } else {
      SumScaled(s, t, c, n - 1, i - Pow2(n - 1));
      MulAdd(s[n - 1], SubsetSum(s, n - 1, i - Pow2(n - 1)), c);
    }
  }

  lemma ArtinAdd(a: Gf, b: Gf)
    ensures Artin(Add(a, b)) == Add(Artin(a), Artin(b)) && Artin(ZERO) == ZERO
  {
    hide Mul, Add, Square;
    SquareHom(a, b);
    AddSwap(Square(a), Square(b), a, b);
    SquareZero();
    AddSelf(ZERO);
  }

  lemma {:induction false} SumArtin(s: seq<Gf>, t: seq<Gf>, n: nat, i: nat)
    requires n <= |s| && n <= |t| && i < Pow2(n) && forall k | 0 <= k < n :: t[k] == Artin(s[k])
    ensures SubsetSum(t, n, i) == Artin(SubsetSum(s, n, i))
    decreases n
  {
    hide Artin, Add;
    if n == 0 {
      ArtinAdd(ZERO, ZERO);
    } else if i < Pow2(n - 1) {
      SumArtin(s, t, n - 1, i);
    } else {
      SumArtin(s, t, n - 1, i - Pow2(n - 1));
      ArtinAdd(s[n - 1], SubsetSum(s, n - 1, i - Pow2(n - 1)));
    }
  }

  /** No nonempty subset adds up to zero. */
  ghost predicate Independent(s: seq<Gf>, n: nat)
    requires n <= |s|
  {
    forall i | 0 < i < Pow2(n) :: SubsetSum(s, n, i) != ZERO
  }

  /** The level below: every element divided by the last. */
  ghost predicate Divided(b: seq<Gf>, g: seq<Gf>) {
    |b| > 0 && |g| == |b| - 1 && forall k | 0 <= k < |g| :: g[k] == Mul(b[k], Inverse(b[|b| - 1]))
  }

  ghost predicate Twisted(g: seq<Gf>, d: seq<Gf>) { |d| == |g| && forall k | 0 <= k < |g| :: d[k] == Artin(g[k]) }

  lemma LastNonzero(b: seq<Gf>)
    requires b != [] && Independent(b, |b|)
    ensures b[|b| - 1] != ZERO
  {
    hide Add;
    var n := |b|;
    SumNone(b, n - 1);
    SumLow(b, n, 0);
    AddSelf(b[n - 1]);
  }

  /** A sum of the divided elements, back over the basis. */
  lemma DividedSum(b: seq<Gf>, g: seq<Gf>, i: nat)
    requires Divided(b, g) && b[|b| - 1] != ZERO && i < Pow2(|g|)
    ensures Mul(b[|b| - 1], SubsetSum(g, |g|, i)) == SubsetSum(b, |g|, i)
  {
    hide Mul, Inverse;
    var c := b[|b| - 1];
    SumScaled(b, g, Inverse(c), |g|, i);
    var s := SubsetSum(b, |g|, i);
    InverseContract(c);
    MulComm(s, Inverse(c));
    MulAssoc(c, Inverse(c), s);
    MulZero(s);
  }

  /** The next level's basis is independent again: x^2 + x vanishes only at 0 and 1. */
  lemma NextIndependent(b: seq<Gf>, g: seq<Gf>, d: seq<Gf>)
    requires b != [] && Independent(b, |b|) && Divided(b, g) && Twisted(g, d)
    ensures Independent(d, |d|)
  {
    hide Mul, Add, Artin, Inverse;
    LastNonzero(b);
    var n, c := |d|, b[|b| - 1];
    forall i | 0 < i < Pow2(n) ensures SubsetSum(d, n, i) != ZERO {
      SumArtin(g, d, n, i);
      var s := SubsetSum(g, n, i);
      if Artin(s) == ZERO {
        ArtinZero(s);
        DividedSum(b, g, i);
        MulZero(c);
        SumLow(b, n + 1, i);
        var t := SubsetSum(b, n, i);
        AddSelf(c);
      }
    }
  }

  lemma ArtinZero(s: Gf)
    requires Artin(s) == ZERO
    ensures s == ZERO || s == ONE
  {
    hide Square;
    assert Square(s) == s;
    FixedPoints(s);
  }

  // ------------------------------------------------------------ one level

  /** Values of a polynomial on a basis's subset sums, from the two halves' values one level down. */
  lemma LevelValue(f: seq<Gf>, mf: nat, b: seq<Gf>, g: seq<Gf>, d: seq<Gf>, i: nat)
    requires 1 <= mf && |f| == Pow2(mf) && b != [] && Independent(b, |b|) && Divided(b, g) && Twisted(g, d) &&
      i < Pow2(|g|)
    ensures i + Pow2(|g|) < Pow2(|b|)
    ensures var h := Radix(Dilated(f, b[|b| - 1], 0), mf);
      var u, v := Eval(h.f0, SubsetSum(d, |d|, i)), Eval(h.f1, SubsetSum(d, |d|, i));
      && Eval(f, SubsetSum(b, |b|, i)) == Add(u, Mul(SubsetSum(g, |g|, i), v))
      && Eval(f, SubsetSum(b, |b|, i + Pow2(|g|))) == Add(Add(u, Mul(SubsetSum(g, |g|, i), v)), v)
  {
    hide Mul, Add, Artin, Inverse, Eval, Radix, Dilated, Independent, Pow;
    var c, n := b[|b| - 1], |g|;
    LastNonzero(b);
    var s := SubsetSum(g, n, i);
    SumLow(b, |b|, i);
    DividedSum(b, g, i);
    SumArtin(g, d, n, i);
    var fd := Dilated(f, c, 0);
    EvalDilated(f, c, 0, s);
    PowOne(c);
    MulZero(Eval(f, Mul(c, s)));
    RadixEval(fd, mf, s);
    // the point s + 1
    var s1 := Add(s, ONE);
    EvalDilated(f, c, 0, s1);
    MulZero(Eval(f, Mul(c, s1)));
    RadixEval(fd, mf, s1);
    ArtinNext(s);
    MulAdd(c, s, ONE);
    MulZero(c);
    AddComm(c, Mul(c, s));
    var h := Radix(fd, mf);
    NextPoint(Eval(h.f0, Artin(s)), Eval(h.f1, Artin(s)), s);
  }

  lemma ArtinNext(s: Gf)
    ensures Artin(Add(s, ONE)) == Artin(s)
  {
    hide Add, Square;
    ArtinAdd(s, ONE);
    SquareZero();
    AddSelf(ONE);
    AddSelf(Artin(s));
  }

  lemma NextPoint(u: Gf, v: Gf, s: Gf)
    ensures Add(u, Mul(Add(s, ONE), v)) == Add(Add(u, Mul(s, v)), v)
  {
    hide Mul, Add;
    MulAdd(s, ONE, v);
    MulZero(v);
    AddAssoc(u, Mul(s, v), v);
  }

  lemma {:induction false} EvalConstant(f: seq<Gf>, x: Gf)
    requires f != [] && ZeroFrom(f, 1)
    ensures Eval(f, x) == f[0]
  {
    hide Mul, Add;
    assert f[1..] == ZeroSeq(|f| - 1);
    EvalZero(|f| - 1, x);
    MulZero(x);
    AddSelf(f[0]);
  }

  lemma {:induction false} PowOfOne(n: nat)
    ensures Pow(ONE, n) == ONE
  {
    hide Mul;
    if n > 0 {
      PowOfOne(n - 1);
      MulZero(ONE);
    }
  }

  lemma DilatedOne(f: seq<Gf>)
    ensures Dilated(f, ONE, 0) == f
  {
    hide Mul, Pow;
    forall i | 0 <= i < |f| ensures Dilated(f, ONE, 0)[i] == f[i] {
      PowOfOne(i);
      MulZero(f[i]);
    }
  }

  lemma DilatedZero(f: seq<Gf>, b: Gf, c: nat)
    requires ZeroFrom(f, c)
    ensures ZeroFrom(Dilated(f, b, 0), c)
  {
    hide Mul, Pow;
    forall i | c <= i < |f| ensures Dilated(f, b, 0)[i] == ZERO { MulZero(Pow(b, i)); }
  }

  // ------------------------------------------------------------ the conversion, in buffers

  /** The splitting loop after i rounds: q and r are right up to i and still the input's blocks after. */
  ghost predicate SplitUpTo(q: seq<Gf>, r: seq<Gf>, f: seq<Gf>, n: nat, i: nat)
    requires |f| == 4 * n
  {
    && |q| == |r| == 2 * n && i <= n
    && (forall k | 0 <= k < 2 * n :: q[k] == if i <= k < n then f[3 * n + k] else QuotientPart(f, n)[k])
    && forall k | 0 <= k < 2 * n :: r[k] == if n + i <= k then f[k] else RemainderPart(f, n)[k]
  }

  lemma SplitStart(q: seq<Gf>, r: seq<Gf>, f: seq<Gf>, n: nat)
    requires |f| == 4 * n && |q| == |r| == 2 * n
    requires forall k | 0 <= k < 2 * n :: q[k] == if k < n then f[3 * n + k] else f[2 * n + k]
    requires forall k | 0 <= k < 2 * n :: r[k] == f[k]
    ensures SplitUpTo(q, r, f, n, 0)
  {
    hide Add, QuotientPart, RemainderPart;
    forall k | n <= k < 2 * n ensures q[k] == QuotientPart(f, n)[k] { PartsAt(f, n, k - n); }
    forall k | 0 <= k < n ensures r[k] == RemainderPart(f, n)[k] { PartsAt(f, n, k); }
  }

  lemma SplitRound(q: seq<Gf>, r: seq<Gf>, f: seq<Gf>, n: nat, i: nat)
    requires |f| == 4 * n && i < n && SplitUpTo(q, r, f, n, i)
    ensures var a := Add(q[i], f[2 * n + i]);
      SplitUpTo(q[i := a], r[n + i := Add(r[n + i], a)], f, n, i + 1)
  {
    hide Add, QuotientPart, RemainderPart;
    PartsAt(f, n, i);
  }

  /** Quotient and remainder of four blocks. */
  method SplitBlocks(f: seq<Gf>, n: nat) returns (q: array<Gf>, r: array<Gf>)
    requires |f| == 4 * n
    ensures q[..] == QuotientPart(f, n) && r[..] == RemainderPart(f, n)
  {
    hide Add, QuotientPart, RemainderPart, SplitUpTo;
    q := new Gf[2 * n](i requires 0 <= i < 2 * n && |f| == 4 * n => if i < n then f[3 * n + i] else f[2 * n + i]);
    r := new Gf[2 * n](i requires 0 <= i < 2 * n && |f| == 4 * n => f[i]);
    SplitStart(q[..], r[..], f, n);
    for i := 0 to n
      invariant SplitUpTo(q[..], r[..], f, n, i)
    {
      ghost var q0, r0 := q[..], r[..];
      SplitRound(q0, r0, f, n, i);
      q[i] := Add(q[i], f[2 * n + i]);
      r[n + i] := Add(r[n + i], q[i]);
      assert q[..] == q0[i := q[i]] && r[..] == r0[n + i := r[n + i]];
    }
    SplitDone(q[..], r[..], f, n);
  }

  lemma SplitDone(q: seq<Gf>, r: seq<Gf>, f: seq<Gf>, n: nat)
    requires |f| == 4 * n && SplitUpTo(q, r, f, n, n)
    ensures q == QuotientPart(f, n) && r == RemainderPart(f, n)
  {
    hide Add;
  }

  /** The conversion by cases: unrolled up to sixteen coefficients, split above. */
  method RadixConvert(f: seq<Gf>, mf: nat) returns (f0: seq<Gf>, f1: seq<Gf>)
    requires 2 <= mf && |f| == Pow2(mf)
    ensures Split(f0, f1) == Radix(f, mf)
    decreases mf
  {
    hide Add, Radix, QuotientPart, RemainderPart;
    Pow2Small();
    if mf == 4 {
      RadixOf16(f);
      f0, f1 := Small16(f).f0, Small16(f).f1;
    } else if mf == 3 {
      RadixOf8(f);
      f0, f1 := Small8(f).f0, Small8(f).f1;
    } else if mf == 2 {
      RadixOf4(f);
      f0 := [f[0], Add(f[2], f[3])];
      f1 := [Add(f[1], f0[1]), f[3]];
    } else {
      var n := Pow2(mf - 2);
      RadixUnfold(f, mf, n);
      var q, r := SplitBlocks(f, n);
      var q0, q1 := RadixConvert(q[..], mf - 1);
      var r0, r1 := RadixConvert(r[..], mf - 1);
      f0, f1 := r0 + q0, r1 + q1;
    }
  }

  // ------------------------------------------------------------ the recursion

  /** w holds the values of f at every subset sum of the basis. */
  ghost predicate Values(w: seq<Gf>, f: seq<Gf>, b: seq<Gf>) {
    Pow2(|b|) <= |w| && forall i | 0 <= i < Pow2(|b|) :: w[i] == Eval(f, SubsetSum(b, |b|, i))
  }

  lemma LineStep(c: Gf, a: Gf, s: Gf, t: Gf)
    ensures Eval([c, a], Add(t, s)) == Add(Eval([c, a], s), Mul(t, a))
  {
    hide Mul, Add, Eval;
    EvalTwo(c, a, s);
    EvalTwo(c, a, Add(t, s));
    MulAdd(t, s, a);
    AddComm(Mul(t, a), Mul(s, a));
    MulComm(s, a);
    MulComm(Add(t, s), a);
    MulComm(a, s);
    AddAssoc(c, Mul(s, a), Mul(t, a));
  }

  /** A line's values, doubling along the basis. */
  method DoubleLine(w: array<Gf>, c: Gf, a: Gf, b: seq<Gf>, j: nat)
    requires j < |b| && Pow2(j + 1) <= w.Length
    requires forall i | 0 <= i < Pow2(j) :: w[i] == Eval([c, a], SubsetSum(b, j, i))
    modifies w
    ensures forall i | 0 <= i < Pow2(j + 1) :: w[i] == Eval([c, a], SubsetSum(b, j + 1, i))
  {
    hide Add, Mul, Eval;
    var t := Mul(b[j], a);
    var x := Pow2(j);
    for k := 0 to x
      invariant forall i | 0 <= i < x :: w[i] == Eval([c, a], SubsetSum(b, j, i))
      invariant forall i | x <= i < x + k :: w[i] == Eval([c, a], SubsetSum(b, j + 1, i))
    {
      SumLow(b, j + 1, k);
      LineStep(c, a, SubsetSum(b, j, k), b[j]);
      w[x + k] := Add(w[k], t);
    }
    forall i | 0 <= i < x ensures SubsetSum(b, j + 1, i) == SubsetSum(b, j, i) { SumLow(b, j + 1, i); }
  }

  method LineValues(w: array<Gf>, c: Gf, a: Gf, b: seq<Gf>)
    requires Pow2(|b|) <= w.Length
    modifies w
    ensures Values(w[..], [c, a], b)
  {
    hide Add, Mul, Eval;
    w[0] := c;
    LineAtZero(c, a);
    for j := 0 to |b|
      invariant forall i | 0 <= i < Pow2(j) && i < w.Length :: w[i] == Eval([c, a], SubsetSum(b, j, i))
    {
      Pow2Mono(j, |b|);
      Pow2Mono(j + 1, |b|);
      DoubleLine(w, c, a, b, j);
    }
  }

  lemma LineAtZero(c: Gf, a: Gf)
    ensures Eval([c, a], ZERO) == c
  {
    hide Mul, Add, Eval;
    EvalTwo(c, a, ZERO);
    MulZero(a);
    AddSelf(c);
  }

  /** f(b x), in place. */
  method Dilate(f: array<Gf>, n: nat, b: Gf)
    requires 0 < n <= f.Length
    modifies f
    ensures f[..n] == Dilated(old(f[..n]), b, 0)
  {
    hide Mul, Pow;
    ghost var f0 := f[..n];
    ghost var g := Dilated(f0, b, 0);
    var bp := ONE;
    PowOne(b);
    MulZero(f[0]);
    for i := 1 to n
      invariant bp == Pow(b, i - 1)
      invariant forall k | 0 <= k < n :: f[k] == if k < i then g[k] else f0[k]
    {
      PowAdd(b, i - 1, 1);
      bp := Mul(bp, b);
      f[i] := Mul(bp, f[i]);
    }
  }

  /** The second half's values joined to the first's: u + s v, and v more at the next point. */
  ghost predicate Joined(w: seq<Gf>, u: seq<Gf>, v: seq<Gf>, s: seq<Gf>, k: nat) {
    2 * k <= |w| && k <= |u| && k <= |v| && k <= |s|
    && forall i | 0 <= i < k :: w[i] == JoinLow(u, v, s, i) && w[k + i] == Add(JoinLow(u, v, s, i), v[i])
  }

  function JoinLow(u: seq<Gf>, v: seq<Gf>, s: seq<Gf>, i: nat): Gf
    requires i < |u| && i < |v| && i < |s|
  {
    Add(u[i], Mul(s[i], v[i]))
  }

  lemma FirstPoint(u: seq<Gf>, v: seq<Gf>, s: seq<Gf>)
    requires 0 < |u| && 0 < |v| && 0 < |s| && s[0] == ZERO
    ensures JoinLow(u, v, s, 0) == u[0]
  {
    hide Add, Mul;
    MulZero(v[0]);
    AddSelf(u[0]);
  }

  method CopyHigh(w: array<Gf>, v: seq<Gf>, k: nat)
    requires k <= |v| && 2 * k <= w.Length
    modifies w
    ensures forall j | k <= j < 2 * k :: w[j] == v[j - k]
  {
    for i := 0 to k
      invariant forall j | k <= j < k + i :: w[j] == v[j - k]
    {
      w[k + i] := v[i];
    }
  }

  /** The two halves' values, combined in place. */
  method JoinHalves(w: array<Gf>, u: seq<Gf>, v: seq<Gf>, s: seq<Gf>, k: nat)
    requires 0 < k <= |u| && k <= |v| && k <= |s| && 2 * k <= w.Length && s[0] == ZERO
    modifies w
    ensures Joined(w[..], u, v, s, k)
  {
    hide Add, Mul, JoinLow;
    FirstPoint(u, v, s);
    CopyHigh(w, v, k);
    w[0] := u[0];
    AddComm(v[0], u[0]);
    w[k] := Add(w[k], u[0]);
    for i := 1 to k
      invariant forall j | 0 <= j < i :: w[j] == JoinLow(u, v, s, j)
      invariant forall j | k <= j < k + i :: w[j] == Add(JoinLow(u, v, s, j - k), v[j - k])
      invariant forall j | k + i <= j < 2 * k :: w[j] == v[j - k]
    {
      JoinLowIs(u, v, s, i);
      w[i] := Add(u[i], Mul(s[i], v[i]));
      AddComm(v[i], w[i]);
      w[k + i] := Add(w[k + i], w[i]);
    }
  }

  lemma JoinLowIs(u: seq<Gf>, v: seq<Gf>, s: seq<Gf>, i: nat)
    requires i < |u| && i < |v| && i < |s|
    ensures JoinLow(u, v, s, i) == Add(u[i], Mul(s[i], v[i]))
  {
  }

  /** The same when the second half is a constant. */
  method JoinConstant(w: array<Gf>, u: seq<Gf>, c: Gf, ghost v: seq<Gf>, s: seq<Gf>, k: nat)
    requires 0 < k <= |u| && k <= |v| && k <= |s| && 2 * k <= w.Length && s[0] == ZERO &&
      forall i | 0 <= i < k :: v[i] == c
    modifies w
    ensures Joined(w[..], u, v, s, k)
  {
    hide Add, Mul, JoinLow;
    FirstPoint(u, v, s);
    w[0] := u[0];
    w[k] := Add(u[0], c);
    for i := 1 to k
      invariant forall j | 0 <= j < i :: w[j] == JoinLow(u, v, s, j)
      invariant forall j | k <= j < k + i :: w[j] == Add(JoinLow(u, v, s, j - k), v[j - k])
    {
      JoinLowIs(u, v, s, i);
      w[i] := Add(u[i], Mul(s[i], c));
      w[k + i] := Add(w[i], c);
    }
  }

  // ------------------------------------------------------------ the recursion proper

  /** One pair of points. */
  lemma JoinedPair(w: seq<Gf>, u: seq<Gf>, v: seq<Gf>, s: seq<Gf>, f: seq<Gf>, mf: nat, b: seq<Gf>, g: seq<Gf>,
      d: seq<Gf>, i: nat)
    requires Level(u, v, s, f, mf, b, g, d) && Joined(w, u, v, s, Pow2(|g|)) && i < Pow2(|g|)
    ensures i + Pow2(|g|) < Pow2(|b|) && w[i] == Eval(f, SubsetSum(b, |b|, i))
    ensures w[Pow2(|g|) + i] == Eval(f, SubsetSum(b, |b|, i + Pow2(|g|)))
  {
    hide Mul, Add, Eval, Radix, Dilated, Independent, Divided, Twisted, SubsetSum, Pow2, Joined, Values;
    LevelShape(u, v, s, f, mf, b, g, d);
    LevelValue(f, mf, b, g, d, i);
    var h := Radix(Dilated(f, b[|b| - 1], 0), mf);
    ValueAt(u, h.f0, d, i);
    ValueAt(v, h.f1, d, i);
    JoinedAt(w, u, v, s, Pow2(|g|), i);
  }

  lemma JoinedAt(w: seq<Gf>, u: seq<Gf>, v: seq<Gf>, s: seq<Gf>, k: nat, i: nat)
    requires Joined(w, u, v, s, k) && i < k
    ensures k + i < |w| && i < |u| && i < |v| && i < |s|
    ensures w[i] == Add(u[i], Mul(s[i], v[i])) && w[k + i] == Add(Add(u[i], Mul(s[i], v[i])), v[i])
  {
    hide Add, Mul;
  }

  lemma ValueAt(w: seq<Gf>, f: seq<Gf>, b: seq<Gf>, i: nat)
    requires Values(w, f, b) && i < Pow2(|b|)
    ensures i < |w| && w[i] == Eval(f, SubsetSum(b, |b|, i))
  {
    hide Eval, SubsetSum;
  }

  lemma LevelShape(u: seq<Gf>, v: seq<Gf>, s: seq<Gf>, f: seq<Gf>, mf: nat, b: seq<Gf>, g: seq<Gf>, d: seq<Gf>)
    requires Level(u, v, s, f, mf, b, g, d)
    ensures |b| == |g| + 1 && |d| == |g| && Pow2(|b|) == 2 * Pow2(|g|)
  {
  }

  /** Everything one level of the recursion has at hand before joining. */
  ghost predicate Level(u: seq<Gf>, v: seq<Gf>, s: seq<Gf>, f: seq<Gf>, mf: nat, b: seq<Gf>, g: seq<Gf>, d: seq<Gf>) {
    && 1 <= mf && |f| == Pow2(mf) && b != [] && Independent(b, |b|) && Divided(b, g) && Twisted(g, d)
    && |s| == Pow2(|g|) && (forall i | 0 <= i < |s| :: s[i] == SubsetSum(g, |g|, i))
    && Values(u, Radix(Dilated(f, b[|b| - 1], 0), mf).f0, d) && Values(v, Radix(Dilated(f, b[|b| - 1], 0), mf).f1, d)
  }

  /** Joined halves are the values at every point. */
  lemma JoinedValues(w: seq<Gf>, u: seq<Gf>, v: seq<Gf>, s: seq<Gf>, f: seq<Gf>, mf: nat, b: seq<Gf>, g: seq<Gf>,
      d: seq<Gf>)
    requires Level(u, v, s, f, mf, b, g, d) && Joined(w, u, v, s, Pow2(|g|))
    ensures Values(w, f, b)
  {
    LevelShape(u, v, s, f, mf, b, g, d);
    var k := Pow2(|g|);
    hide Eval, SubsetSum, Pow2, Level, Joined;
    assert 2 * k <= |w| by { JoinedLength(w, u, v, s, k); }
    forall i | 0 <= i < 2 * k ensures w[i] == Eval(f, SubsetSum(b, |b|, i)) {
      if i < k { JoinedPair(w, u, v, s, f, mf, b, g, d, i); } else { JoinedPair(w, u, v, s, f, mf, b, g, d, i - k); }
    }
  }

  lemma JoinedLength(w: seq<Gf>, u: seq<Gf>, v: seq<Gf>, s: seq<Gf>, k: nat)
    requires Joined(w, u, v, s, k)
    ensures 2 * k <= |w|
  {
  }

  method Divide(b: seq<Gf>) returns (g: seq<Gf>, d: seq<Gf>)
    requires b != []
    ensures Divided(b, g) && Twisted(g, d)
  {
    hide Mul, Inverse, Square, Add;
    g, d := [], [];
    for i := 0 to |b| - 1
      invariant |g| == |d| == i
      invariant forall k | 0 <= k < i :: g[k] == Mul(b[k], Inverse(b[|b| - 1])) && d[k] == Artin(g[k])
    {
      g := g + [Mul(b[i], Inverse(b[|b| - 1]))];
      d := d + [Add(Square(g[i]), g[i])];
    }
  }

  lemma ConstantValues(f: seq<Gf>, d: seq<Gf>, v: seq<Gf>)
    requires f != [] && ZeroFrom(f, 1) && |v| == Pow2(|d|) && forall i | 0 <= i < |v| :: v[i] == f[0]
    ensures Values(v, f, d)
  {
    hide Eval, SubsetSum, Pow2;
    forall i | 0 <= i < |v| ensures v[i] == Eval(f, SubsetSum(d, |d|, i)) { EvalConstant(f, SubsetSum(d, |d|, i)); }
  }

  /** Values of f at every subset sum of an independent basis. */
  method Rec(w: array<Gf>, f: array<Gf>, coeffs: nat, mf: nat, b: seq<Gf>)
    requires w != f && 1 <= mf <= |b| && Pow2(mf) <= f.Length && Pow2(|b|) <= w.Length
    requires Independent(b, |b|) && ZeroFrom(f[..Pow2(mf)], coeffs)
    modifies w, f
    ensures Values(w[..], old(f[..Pow2(mf)]), b)
    decreases mf, 1
  {
    hide Add, Mul, Inverse, Independent, Values, Divided, Twisted, ZeroFrom, Radix, Dilated, SubsetSum, Joined, Pow;
    ghost var p := f[..Pow2(mf)];
    if mf == 1 {
      Pow2Small();
      assert p == [f[0], f[1]];
      LineValues(w, f[0], f[1], b);
      return;
    }
    var n, last := Pow2(mf), b[|b| - 1];
    ghost var q := Dilated(p, last, 0);
    if last != ONE { Dilate(f, n, last); } else { DilatedOne(p); }
    assert f[..n] == q;
    var f0, f1 := RadixConvert(f[..n], mf);
    DilatedZero(p, last, coeffs);
    RadixZero(q, mf, coeffs);
    RecHalves(w, f0, f1, coeffs, mf, b, p);
  }

  /** One level: both halves evaluated on the next basis, then joined. */
  method RecHalves(w: array<Gf>, f0: seq<Gf>, f1: seq<Gf>, coeffs: nat, mf: nat, b: seq<Gf>, ghost p: seq<Gf>)
    requires 2 <= mf <= |b| && Pow2(|b|) <= w.Length && |p| == Pow2(mf) && Independent(b, |b|)
    requires Split(f0, f1) == Radix(Dilated(p, b[|b| - 1], 0), mf)
    requires ZeroFrom(f0, (coeffs + 1) / 2) && ZeroFrom(f1, coeffs / 2)
    modifies w
    ensures Values(w[..], p, b)
    decreases mf, 0
  {
    hide Add, Mul, Inverse, Independent, Values, Divided, Twisted, ZeroFrom, Radix, Dilated, SubsetSum, Joined, Pow,
      Level;
    var g, d := Divide(b);
    NextIndependent(b, g, d);
    NextLength(b, g, d);
    var sums := SubsetSums(g);
    SumNone(g, |g|);
    var k := Pow2(|g|);
    var u := EvalHalf(f0, (coeffs + 1) / 2, mf - 1, d);
    if coeffs <= 3 {
      HalfShort(f1, coeffs / 2);
      ghost var v := seq(k, _ => f1[0]);
      ConstantValues(f1, d, v);
      JoinConstant(w, u, f1[0], v, sums[..], k);
      LevelIntro(u, v, sums[..], p, mf, b, g, d);
      JoinedValues(w[..], u, v, sums[..], p, mf, b, g, d);
    } else {
      var v := EvalHalf(f1, coeffs / 2, mf - 1, d);
      JoinHalves(w, u, v, sums[..], k);
      LevelIntro(u, v, sums[..], p, mf, b, g, d);
      JoinedValues(w[..], u, v, sums[..], p, mf, b, g, d);
    }
  }

  lemma LevelIntro(u: seq<Gf>, v: seq<Gf>, s: seq<Gf>, f: seq<Gf>, mf: nat, b: seq<Gf>, g: seq<Gf>, d: seq<Gf>)
    requires 1 <= mf && |f| == Pow2(mf) && b != [] && Independent(b, |b|) && Divided(b, g) && Twisted(g, d)
    requires |s| == Pow2(|g|) && forall i | 0 <= i < |s| :: s[i] == SubsetSum(g, |g|, i)
    requires Values(u, Radix(Dilated(f, b[|b| - 1], 0), mf).f0, d) &&
      Values(v, Radix(Dilated(f, b[|b| - 1], 0), mf).f1, d)
    ensures Level(u, v, s, f, mf, b, g, d)
  {
  }

  lemma NextLength(b: seq<Gf>, g: seq<Gf>, d: seq<Gf>)
    requires Divided(b, g) && Twisted(g, d)
    ensures |g| == |d| == |b| - 1 && 0 < Pow2(|g|) && Pow2(|b|) == 2 * Pow2(|g|)
  {
  }

  lemma HalfShort(f: seq<Gf>, c: nat)
    requires ZeroFrom(f, c) && c <= 1
    ensures ZeroFrom(f, 1)
  {
  }

  /** One half, in a buffer of its own. */
  method EvalHalf(f: seq<Gf>, coeffs: nat, mf: nat, d: seq<Gf>) returns (u: seq<Gf>)
    requires 1 <= mf <= |d| && |f| == Pow2(mf) && Independent(d, |d|) && ZeroFrom(f, coeffs)
    ensures |u| == Pow2(|d|) && Values(u, f, d)
    decreases mf, 2
  {
    hide Independent, Values, ZeroFrom, SubsetSum;
    var a := new Gf[|f|](i requires 0 <= i < |f| => f[i]);
    var w := new Gf[Pow2(|d|)](_ => ZERO);
    assert a[..Pow2(mf)] == f;
    Rec(w, a, coeffs, mf, d);
    u := w[..];
  }

  // ------------------------------------------------------------ the whole field

  /** x^(7 - i). */
  function Spot(i: nat): Gf { Gf(seq(8, t requires 0 <= t < 8 => t == 7 - i)) }

  /** x^7, x^6, ..., x, 1. */
  const BASIS: seq<Gf> := seq(8, i requires 0 <= i < 8 => Spot(i))

  lemma BasisBits(n: nat, t: nat)
    requires n < 8 && t < 8
    ensures |BASIS| == 8 && BASIS[n] == Spot(n) && GBit(BASIS[n], t) == (t == 7 - n)
  {
  }

  /** The sum's bits: bit 7 - k is bit k of the index. */
  lemma {:induction false} BasisSum(n: nat, i: nat)
    requires n <= 8 && i < Pow2(n)
    ensures |BASIS| == 8 && (forall t: nat | t < 8 - n :: !GBit(SubsetSum(BASIS, n, i), t))
    ensures i > 0 ==> SubsetSum(BASIS, n, i) != ZERO
    decreases n
  {
    hide GBit, Add;
    BasisBits(0, 0);
    if n == 0 {
      forall t: nat | t < 8 ensures !GBit(ZERO, t) { AddBit(ZERO, ZERO, t); }
    } else if i < Pow2(n - 1) {
      BasisSum(n - 1, i);
    } else {
      var j := i - Pow2(n - 1);
      BasisSum(n - 1, j);
      var s := SubsetSum(BASIS, n - 1, j);
      var u := Add(BASIS[n - 1], s);
      forall t: nat | t < 9 - n ensures GBit(u, t) == (t == 8 - n) {
        AddBit(BASIS[n - 1], s, t);
        BasisBits(n - 1, t);
      }
      AddBit(ZERO, ZERO, 8 - n);
      assert GBit(u, 8 - n);
    }
  }

  lemma BasisIndependent()
    ensures |BASIS| == 8 && Independent(BASIS, 8)
  {
    hide Add, SubsetSum, GBit;
    BasisBits(0, 0);
    var n: nat :| n == 8;
    forall i | 0 < i < Pow2(n) ensures SubsetSum(BASIS, n, i) != ZERO { BasisSum(n, i); }
  }

  /** Where an element stands in the transform's order. */
  function IndexOf(x: Gf, n: nat): (i: nat)
    requires n <= 8
    ensures i < Pow2(n)
  {
    if n == 0 then 0 else IndexOf(x, n - 1) + B2I(GBit(x, 8 - n)) * Pow2(n - 1)
  }

  /** x without its low 8 - n bits. */
  function HighPart(x: Gf, n: nat): Gf
    requires n <= 8
  {
    Gf(seq(8, t requires 0 <= t < 8 => t >= 8 - n && x.bits[t]))
  }

  lemma HighPartBit(x: Gf, n: nat, t: nat)
    requires n <= 8 && t < 8
    ensures GBit(HighPart(x, n), t) == (t >= 8 - n && GBit(x, t))
  {
  }

  lemma SpotBit(i: nat, t: nat)
    requires i < 8 && t < 8
    ensures GBit(Spot(i), t) == (t == 7 - i)
  {
  }

  lemma HighPartNext(x: Gf, n: nat)
    requires 0 < n <= 8
    ensures HighPart(x, n) == if GBit(x, 8 - n) then Add(Spot(n - 1), HighPart(x, n - 1)) else HighPart(x, n - 1)
  {
    hide GBit, Add, Spot, HighPart;
    var h := HighPart(x, n - 1);
    var y := if GBit(x, 8 - n) then Add(Spot(n - 1), h) else h;
    forall t: nat | t < 8 ensures GBit(HighPart(x, n), t) == GBit(y, t) {
      HighPartBit(x, n, t);
      HighPartBit(x, n - 1, t);
      SpotBit(n - 1, t);
      AddBit(Spot(n - 1), h, t);
    }
    SameElement(HighPart(x, n), y);
  }

  lemma {:induction false} EveryPoint(x: Gf, n: nat)
    requires n <= 8
    ensures |BASIS| == 8 && SubsetSum(BASIS, n, IndexOf(x, n)) == HighPart(x, n)
    decreases n
  {
    hide Add, GBit, HighPart, Spot, IndexOf, BASIS;
    BasisBits(0, 0);
    if n == 0 {
      HighPartNone(x);
    } else {
      EveryPoint(x, n - 1);
      IndexNext(x, n);
      HighPartNext(x, n);
      BasisBits(n - 1, 0);
      SumLow(BASIS, n, IndexOf(x, n - 1));
      hide SubsetSum, Pow2;
    }
  }

  lemma IndexNext(x: Gf, n: nat)
    requires 0 < n <= 8
    ensures IndexOf(x, n) == if GBit(x, 8 - n) then IndexOf(x, n - 1) + Pow2(n - 1) else IndexOf(x, n - 1)
  {
    hide GBit;
  }

  lemma HighPartNone(x: Gf)
    ensures HighPart(x, 0) == ZERO && HighPart(x, 8) == x
  {
    SameElement(HighPart(x, 0), ZERO);
    SameElement(HighPart(x, 8), x);
  }

  /** Bit t of point i is bit 7 - t of i. */
  lemma {:induction false} PointBit(n: nat, i: nat, t: nat)
    requires n <= 8 && i < Pow2(n) && t < 8
    ensures |BASIS| == 8 && GBit(SubsetSum(BASIS, n, i), t) == (t >= 8 - n && BitOf(i, 7 - t))
    decreases n
  {
    hide GBit, Add, BitOf, BASIS;
    BasisBits(0, 0);
    if n == 0 {
      AddBit(ZERO, ZERO, t);
    } else {
      var j := if i < Pow2(n - 1) then i else i - Pow2(n - 1);
      PointBit(n - 1, j, t);
      LowBitSame(n, i, j, t);
      if i >= Pow2(n - 1) {
        AddBit(BASIS[n - 1], SubsetSum(BASIS, n - 1, j), t);
        BasisBits(n - 1, t);
      }
    }
  }

  /** Taking the top bit off an index keeps the bits below it. */
  lemma LowBitSame(n: nat, i: nat, j: nat, t: nat)
    requires 0 < n <= 8 && i < Pow2(n) && j == (if i < Pow2(n - 1) then i else i - Pow2(n - 1)) && t < 8
    ensures t > 8 - n ==> BitOf(i, 7 - t) == BitOf(j, 7 - t)
    ensures t == 8 - n ==> BitOf(i, 7 - t) == (i >= Pow2(n - 1))
  {
    var p := Pow2(n - 1);
    if t > 8 - n && i >= p {
      hide BitOf;
      Base.BitLow(j, 1, n - 1, 7 - t);
    }
    if t == 8 - n { DivModUnique(i, p, if i < p then 0 else 1, j); }
  }

  /** Output i of the transform is the value at the element whose bits are those of i in reverse. */
  lemma OutputOrder(f: seq<Gf>, w: seq<Gf>, i: nat) returns (x: Gf)
    requires |BASIS| == 8 && Values(w, f, BASIS) && |w| == 256 && i < 256
    ensures w[i] == Eval(f, x) && forall t: nat | t < 8 :: GBit(x, t) == BitOf(i, 7 - t)
  {
    hide GBit, BitOf, SubsetSum;
    assert Pow2(8) == 256 by { Pow2Values(); }
    hide Pow2;
    x := SubsetSum(BASIS, 8, i);
    forall t: nat | t < 8 ensures GBit(x, t) == BitOf(i, 7 - t) { PointBit(8, i, t); }
  }

  /** Every element of the field is one of the 256 points. */
  lemma PointsCoverField(x: Gf)
    ensures |BASIS| == 8 && IndexOf(x, 8) < 256 && Pow2(8) == 256 && SubsetSum(BASIS, 8, IndexOf(x, 8)) == x
  {
    hide Add, SubsetSum, IndexOf, GBit;
    Pow2Values();
    EveryPoint(x, 8);
    HighPartNone(x);
  }

  lemma TopLevel(g: seq<Gf>)
    requires |BASIS| == 8 && g == BASIS[..7]
    ensures Divided(BASIS, g) && BASIS[7] == ONE
  {
    hide Mul;
    assert BASIS[7] == ONE by { SameElement(Spot(7), ONE); }
    InverseContract(ONE);
    MulZero(Inverse(ONE));
    forall k | 0 <= k < 7 ensures g[k] == Mul(BASIS[k], Inverse(BASIS[7])) { MulZero(g[k]); }
  }

  method Deltas(g: seq<Gf>) returns (d: seq<Gf>)
    ensures Twisted(g, d)
  {
    hide Square, Add;
    d := [];
    for i := 0 to |g|
      invariant |d| == i && forall k | 0 <= k < i :: d[k] == Artin(g[k])
    {
      d := d + [Add(Square(g[i]), g[i])];
    }
  }

  /** The whole transform: sigma at the sums of x^7, ..., x, and at each of them plus 1. */
  method Run(f: seq<Gf>, fftp: nat, coeffs: nat) returns (w: seq<Gf>)
    requires 2 <= fftp <= 8 && |f| == Pow2(fftp) && ZeroFrom(f, coeffs)
    ensures |BASIS| == 8 && Values(w, f, BASIS) && |w| == 256
  {
    hide Add, Mul, Independent, Values, Divided, Twisted, ZeroFrom, Radix, Dilated, SubsetSum, Joined, Level;
    BasisIndependent();
    Pow2Values();
    var g := BASIS[..7];
    TopLevel(g);
    var sums := SubsetSums(g);
    SumNone(g, 7);
    DilatedOne(f);
    var f0, f1 := RadixConvert(f, fftp);
    RadixZero(f, fftp, coeffs);
    var d := Deltas(g);
    NextIndependent(BASIS, g, d);
    NextLength(BASIS, g, d);
    var u := EvalHalf(f0, (coeffs + 1) / 2, fftp - 1, d);
    var v := EvalHalf(f1, coeffs / 2, fftp - 1, d);
    var a := new Gf[256](_ => ZERO);
    JoinHalves(a, u, v, sums[..], Pow2(|g|));
    LevelIntro(u, v, sums[..], f, fftp, BASIS, g, d);
    JoinedValues(a[..], u, v, sums[..], f, fftp, BASIS, g, d);
    w := a[..];
  }
}
