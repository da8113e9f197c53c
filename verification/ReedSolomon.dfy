/** The systematic Reed-Solomon encoder: its generator polynomial, its shift register, and the
    syndromes of what it produces. */
module ReedSolomon {
  import opened ModArith
  import opened GaloisField
  import opened FieldPoly
  import opened GaloisTables

  // ------------------------------------------------------------ the generator

  /** (x + c) g(x). */
  function MulRoot(g: seq<Gf>, c: Gf): (r: seq<Gf>)
    ensures |r| == |g| + 1
  {
    AddSeq(ScaleSeq(c, g) + [ZERO], [ZERO] + g)
  }

  lemma EvalMulRoot(g: seq<Gf>, c: Gf, x: Gf)
    ensures Eval(MulRoot(g, c), x) == Mul(Add(x, c), Eval(g, x))
  {
    hide Mul, Add, Eval, AddSeq, ScaleSeq, Pow;
    EvalAdd(ScaleSeq(c, g) + [ZERO], [ZERO] + g, x);
    EvalAppend(ScaleSeq(c, g), [ZERO], x);
    EvalAppend([ZERO], g, x);
    EvalScale(c, g, x);
    EvalOne(ZERO, x);
    PowOne(x);
    var e := Eval(g, x);
    MulZero(Pow(x, |g|));
    AddSelf(Mul(c, e));
    AddSelf(Mul(x, e));
    MulAdd(x, c, e);
    AddComm(Mul(c, e), Mul(x, e));
  }

  /** The product of (x + alpha^i) for i = 1..n. */
  function Generating(n: nat): (g: seq<Gf>)
    ensures |g| == n + 1
  {
    if n == 0 then [ONE] else MulRoot(Generating(n - 1), Pow(X, n))
  }

  lemma {:induction false} Monic(n: nat)
    ensures Generating(n)[n] == ONE
  {
    hide Mul, Add, Pow;
    if n > 0 {
      Monic(n - 1);
      AddSelf(ONE);
    }
  }

  /** Its roots: alpha^1 to alpha^n. */
  lemma {:induction false} GeneratorRoots(n: nat, i: nat)
    requires 1 <= i <= n
    ensures Eval(Generating(n), Pow(X, i)) == ZERO
    decreases n
  {
    hide Mul, Add, Pow, Eval, MulRoot;
    var x := Pow(X, i);
    EvalMulRoot(Generating(n - 1), Pow(X, n), x);
    var e := Eval(Generating(n - 1), x);
    if i == n {
      AddSelf(x);
      MulZero(e);
    } else {
      GeneratorRoots(n - 1, i);
      MulZero(Add(x, Pow(X, n)));
    }
  }

  lemma MulRootAt(g: seq<Gf>, c: Gf, j: nat)
    requires j <= |g| && 0 < |g| && g[|g| - 1] == ONE
    ensures MulRoot(g, c)[j] == if j == 0 then Mul(c, g[0]) else if j == |g| then ONE else Add(Mul(c, g[j]), g[j - 1])
  {
    hide Mul, Add;
    AddSelf(ONE);
    if j == 0 { AddSelf(Mul(c, g[0])); }
  }

  /** alpha^i a through the tables, 0 apart. */
  function TableMul(exp: seq<Gf>, log: seq<nat>, a: Gf, i: nat): Gf
    requires |exp| == 258 && |log| == 256
  {
    if a != ZERO then exp[(log[Code(a)] + i) % 255] else ZERO
  }

  lemma TableMulIs(exp: seq<Gf>, log: seq<nat>, a: Gf, i: nat)
    requires Tables(exp, log)
    ensures TableMul(exp, log, a, i) == Mul(Pow(X, i), a)
  {
    hide Mul, Pow, Code, Tables;
    TablesShape(exp, log);
    if a == ZERO { MulZero(Pow(X, i)); } else { TableProduct(exp, log, a, i); }
  }

  lemma TablesShape(exp: seq<Gf>, log: seq<nat>)
    requires Tables(exp, log)
    ensures |exp| == 258 && |log| == 256
  {
  }

  /** One factor multiplied in, from the top coefficient down. */
  method TimesRoot(g: array<Gf>, deg: nat, i: nat, exp: seq<Gf>, log: seq<nat>)
    requires deg + 1 < g.Length && g[deg] == ONE && Tables(exp, log)
    modifies g
    ensures g[..deg + 2] == MulRoot(old(g[..deg + 1]), Pow(X, i))
  {
    hide Mul, Add, Pow, Tables, TableMul, MulRoot;
    TablesShape(exp, log);
    ghost var g0 := g[..deg + 1];
    ghost var c := Pow(X, i);
    ghost var m := MulRoot(g0, c);
    var j: nat := deg;
    while j > 0
      invariant j <= deg
      invariant forall k | 0 <= k <= j :: g[k] == g0[k]
      invariant forall k | j < k <= deg :: g[k] == m[k]
    {
      TableMulIs(exp, log, g[j], i);
      MulRootAt(g0, c, j);
      var t := TableMul(exp, log, g[j], i);
      g[j] := Add(t, g[j - 1]);
      j := j - 1;
    }
    TableMulIs(exp, log, g[0], i);
    MulRootAt(g0, c, 0);
    g[0] := TableMul(exp, log, g[0], i);
    MulRootAt(g0, c, deg + 1);
    g[deg + 1] := ONE;
  }

  /** The generator polynomial, built factor by factor. */
  method BuildGenerator(n: nat, exp: seq<Gf>, log: seq<nat>) returns (g: seq<Gf>)
    requires Tables(exp, log)
    ensures g == Generating(n)
  {
    hide Mul, Add, Pow, Tables, MulRoot;
    var a := new Gf[n + 1](_ => ZERO);
    a[0] := ONE;
    for i := 1 to n + 1
      invariant a[..i] == Generating(i - 1)
    {
      Monic(i - 1);
      assert a[i - 1] == a[..i][i - 1];
      TimesRoot(a, i - 1, i, exp, log);
    }
    g := a[..];
    assert a[..n + 1] == g;
  }

  // ------------------------------------------------------------ the shift register

  /** One clock: shift up, feed back the gate times g. */
  function Clock(b: seq<Gf>, g: seq<Gf>, m: Gf): (r: seq<Gf>)
    requires 0 < |b| && |g| == |b| + 1
    ensures |r| == |b|
  {
    var gate := Add(m, b[|b| - 1]);
    seq(|b|, k requires 0 <= k < |b| => if k == 0 then Mul(gate, g[0]) else Add(b[k - 1], Mul(gate, g[k])))
  }

  lemma GateCancels(m: Gf, t: Gf)
    ensures Add(t, Add(m, t)) == m
  {
  }

  lemma ClockIs(b: seq<Gf>, g: seq<Gf>, m: Gf)
    requires 0 < |b| && |g| == |b| + 1 && g[|b|] == ONE
    ensures Clock(b, g, m) + [m] == AddSeq([ZERO] + b, ScaleSeq(Add(m, b[|b| - 1]), g))
  {
    hide Mul, Add;
    var gate := Add(m, b[|b| - 1]);
    MulZero(gate);
    GateCancels(m, b[|b| - 1]);
    AddSelf(Mul(gate, g[0]));
  }

  lemma RegisterAlgebra(n: Gf, pm: Gf, xb: Gf)
    requires Add(n, pm) == xb
    ensures n == Add(xb, pm)
  {
  }

  /** At a root of g, a clock multiplies the register by the root and adds the symbol's share. */
  lemma ClockAtRoot(b: seq<Gf>, g: seq<Gf>, m: Gf, x: Gf)
    requires 0 < |b| && |g| == |b| + 1 && g[|b|] == ONE && Eval(g, x) == ZERO
    ensures Eval(Clock(b, g, m), x) == Add(Mul(x, Eval(b, x)), Mul(Pow(x, |b|), m))
  {
    hide Mul, Add, Eval, AddSeq, ScaleSeq, Pow, Clock;
    var gate := Add(m, b[|b| - 1]);
    ClockIs(b, g, m);
    EvalAppend(Clock(b, g, m), [m], x);
    EvalAdd([ZERO] + b, ScaleSeq(gate, g), x);
    EvalAppend([ZERO], b, x);
    EvalScale(gate, g, x);
    MulZero(gate);
    EvalOne(m, x);
    EvalOne(ZERO, x);
    PowOne(x);
    AddSelf(Mul(x, Eval(b, x)));
    RegisterAlgebra(Eval(Clock(b, g, m), x), Mul(Pow(x, |b|), m), Mul(x, Eval(b, x)));
  }

  /** The register after the symbols of s, last first. */
  function Register(s: seq<Gf>, g: seq<Gf>): (b: seq<Gf>)
    requires 2 <= |g|
    ensures |b| == |g| - 1
  {
    if s == [] then ZeroSeq(|g| - 1) else Clock(Register(s[1..], g), g, s[0])
  }

  lemma RootStep(x: Gf, p: Gf, e: Gf, m: Gf)
    ensures Add(Mul(x, Mul(p, e)), Mul(p, m)) == Mul(p, Add(m, Mul(x, e)))
  {
    hide Mul, Add;
    MulAdd(p, m, Mul(x, e));
    MulAssoc(x, p, e);
    MulComm(x, p);
    MulAssoc(p, x, e);
    AddComm(Mul(p, m), Mul(p, Mul(x, e)));
  }

  /** At a root of g, the register holds x^R times the message. */
  lemma {:induction false} RegisterAtRoot(s: seq<Gf>, g: seq<Gf>, x: Gf)
    requires 2 <= |g| && g[|g| - 1] == ONE && Eval(g, x) == ZERO
    ensures Eval(Register(s, g), x) == Mul(Pow(x, |g| - 1), Eval(s, x))
    decreases |s|
  {
    hide Mul, Add, Pow, Clock;
    var p := Pow(x, |g| - 1);
    if s == [] {
      EvalZero(|g| - 1, x);
      MulZero(p);
    } else {
      RegisterAtRoot(s[1..], g, x);
      ClockAtRoot(Register(s[1..], g), g, s[0], x);
      RootStep(x, p, Eval(s[1..], x), s[0]);
    }
  }

  /** Parity first, message after. */
  function Codeword(msg: seq<Gf>, g: seq<Gf>): (c: seq<Gf>)
    requires 2 <= |g|
    ensures |c| == |g| - 1 + |msg|
  {
    Register(msg, g) + msg
  }

  /** Every root of the generator is a root of every codeword. */
  lemma CodewordAtRoot(msg: seq<Gf>, g: seq<Gf>, x: Gf)
    requires 2 <= |g| && g[|g| - 1] == ONE && Eval(g, x) == ZERO
    ensures Eval(Codeword(msg, g), x) == ZERO
  {
    hide Mul, Add, Pow, Register, Eval;
    RegisterAtRoot(msg, g, x);
    EvalAppend(Register(msg, g), msg, x);
    AddSelf(Mul(Pow(x, |g| - 1), Eval(msg, x)));
  }

  /** All 2 delta syndromes of every codeword are zero. */
  lemma SyndromesVanish(msg: seq<Gf>, n: nat, i: nat)
    requires 1 <= i <= n
    ensures Eval(Codeword(msg, Generating(n)), Pow(X, i)) == ZERO
  {
    hide Codeword, Eval, Pow, Generating;
    GeneratorShape(n);
    GeneratorRoots(n, i);
    CodewordAtRoot(msg, Generating(n), Pow(X, i));
  }

  lemma GeneratorShape(n: nat)
    ensures |Generating(n)| == n + 1 && Generating(n)[n] == ONE
  {
    Monic(n);
  }

  /** One clock, in place. */
  method ClockRegister(b: array<Gf>, r: nat, g: seq<Gf>, m: Gf)
    requires 0 < r <= b.Length && |g| == r + 1
    modifies b
    ensures b[..r] == Clock(old(b[..r]), g, m)
  {
    hide Mul, Add, Clock;
    var gate := Add(m, b[r - 1]);
    ghost var b0 := b[..r];
    ghost var c := Clock(b0, g, m);
    var k: nat := r - 1;
    while k > 0
      invariant k < r
      invariant forall t | 0 <= t <= k :: b[t] == b0[t]
      invariant forall t | k < t < r :: b[t] == c[t]
    {
      ClockAt(b0, g, m, k);
      b[k] := Add(b[k - 1], Mul(gate, g[k]));
      k := k - 1;
    }
    ClockAt(b0, g, m, 0);
    b[0] := Mul(gate, g[0]);
  }

  lemma ClockAt(b: seq<Gf>, g: seq<Gf>, m: Gf, k: nat)
    requires 0 < |b| && |g| == |b| + 1 && k < |b|
    ensures Clock(b, g, m)[k] == if k == 0 then Mul(Add(m, b[|b| - 1]), g[0])
      else Add(b[k - 1], Mul(Add(m, b[|b| - 1]), g[k]))
  {
    hide Mul, Add;
  }

  /** Systematic encoding. */
  method Encode(msg: seq<Gf>, n: nat, exp: seq<Gf>, log: seq<nat>) returns (cdw: seq<Gf>)
    requires 0 < n && Tables(exp, log)
    ensures cdw == Codeword(msg, Generating(n)) && cdw[n..] == msg
  {
    hide Mul, Add, Pow, Tables, Generating, Register;
    var g := BuildGenerator(n, exp, log);
    GeneratorShape(n);
    var b := new Gf[n](_ => ZERO);
    RegisterEmpty(g, b[..]);
    assert b[..n] == b[..] && msg[|msg|..] == [];
    for i := 0 to |msg|
      invariant b[..n] == Register(msg[|msg| - i..], g)
    {
      var j := |msg| - 1 - i;
      RegisterNext(msg, j, g);
      ClockRegister(b, n, g, msg[j]);
    }
    cdw := b[..] + msg;
    assert b[..n] == b[..];
  }

  lemma RegisterEmpty(g: seq<Gf>, b: seq<Gf>)
    requires 2 <= |g| && |b| == |g| - 1 && forall i | 0 <= i < |b| :: b[i] == ZERO
    ensures Register([], g) == b
  {
  }

  lemma RegisterNext(msg: seq<Gf>, j: nat, g: seq<Gf>)
    requires 2 <= |g| && j < |msg|
    ensures Register(msg[j..], g) == Clock(Register(msg[j + 1..], g), g, msg[j])
  {
    hide Clock;
    assert msg[j..][1..] == msg[j + 1..];
  }

  // ------------------------------------------------------------ syndromes

  /** c_0 + ... + c_(n-1) x^(n-1). */
  function PartialSum(c: seq<Gf>, x: Gf, n: nat): Gf
    requires n <= |c|
  {
    if n == 0 then ZERO else Add(PartialSum(c, x, n - 1), Mul(c[n - 1], Pow(x, n - 1)))
  }

  lemma {:induction false} PartialIsEval(c: seq<Gf>, x: Gf, n: nat)
    requires n <= |c|
    ensures PartialSum(c, x, n) == Eval(c[..n], x)
  {
    hide Mul, Add, Pow;
    if n > 0 {
      PartialIsEval(c, x, n - 1);
      assert c[..n] == c[..n - 1] + [c[n - 1]];
      EvalAppend(c[..n - 1], [c[n - 1]], x);
      EvalOne(c[n - 1], x);
      MulComm(c[n - 1], Pow(x, n - 1));
    }
  }

  /** S_i = c(alpha^(i + 1)), for i below 2 delta. */
  method Syndromes(c: seq<Gf>, n: nat, exp: seq<Gf>) returns (s: seq<Gf>)
    requires 0 < |c| && |exp| == 258 && forall i | 0 <= i < 258 :: exp[i] == Pow(X, i)
    ensures |s| == n && forall i | 0 <= i < n :: s[i] == Eval(c, Pow(X, i + 1))
  {
    hide Mul, Add, Pow, Eval;
    s := [];
    for i := 0 to n
      invariant |s| == i && forall k | 0 <= k < i :: s[k] == Eval(c, Pow(X, k + 1))
    {
      var acc := OneSyndrome(c, i, exp);
      s := s + [acc];
    }
  }

  method OneSyndrome(c: seq<Gf>, i: nat, exp: seq<Gf>) returns (acc: Gf)
    requires 0 < |c| && |exp| == 258 && forall i | 0 <= i < 258 :: exp[i] == Pow(X, i)
    ensures acc == Eval(c, Pow(X, i + 1))
  {
    hide Mul, Add, Pow, Eval;
    ghost var x := Pow(X, i + 1);
    acc := c[0];
    FirstTerm(c, x);
    for j := 1 to |c|
      invariant acc == PartialSum(c, x, j)
    {
      var e := (i + 1) * j;
      assert 0 <= e;
      PowMul(X, i + 1, j, e);
      PeriodReduce(e);
      acc := Add(acc, Mul(c[j], exp[e % 255]));
    }
    PartialIsEval(c, x, |c|);
    assert c[..|c|] == c;
  }

  lemma FirstTerm(c: seq<Gf>, x: Gf)
    requires 0 < |c|
    ensures PartialSum(c, x, 1) == c[0]
  {
    hide Mul, Add;
    PowOne(x);
    MulZero(c[0]);
    AddSelf(c[0]);
    assert PartialSum(c, x, 0) == ZERO;
  }

  // ------------------------------------------------------------ the code is exactly the zero-syndrome words

  /** f(x) - f(r) divided by x - r: its coefficients are the tails of f at r. */
  function Quotient(f: seq<Gf>, r: Gf): (q: seq<Gf>)
    requires f != []
    ensures |q| == |f| - 1
    decreases |f|
  {
    if |f| == 1 then [] else [Eval(f[1..], r)] + Quotient(f[1..], r)
  }

  /** f(x) = (x + r) q(x) + f(r). */
  lemma {:induction false} Division(f: seq<Gf>, r: Gf, x: Gf)
    requires f != []
    ensures Eval(f, x) == Add(Mul(Add(x, r), Eval(Quotient(f, r), x)), Eval(f, r))
    decreases |f|
  {
    hide Mul, Add;
    if |f| == 1 {
      EvalOne(f[0], x);
      EvalOne(f[0], r);
      assert f == [f[0]];
      MulZero(Add(x, r));
      AddSelf(f[0]);
    } else {
      Division(f[1..], r, x);
      var q := Quotient(f[1..], r);
      assert Quotient(f, r)[1..] == q && Quotient(f, r)[0] == Eval(f[1..], r);
      EvalNext(f, x);
      EvalNext(f, r);
      EvalNext(Quotient(f, r), x);
      DivisionStep(f[0], x, r, Eval(f[1..], r), Eval(q, x));
    }
  }

  lemma DivisionStep(c: Gf, x: Gf, r: Gf, t: Gf, q: Gf)
    ensures Add(c, Mul(x, Add(Mul(Add(x, r), q), t))) == Add(Mul(Add(x, r), Add(t, Mul(x, q))), Add(c, Mul(r, t)))
  {
    hide Mul, Add;
    var y := Add(x, r);
    MulAdd(x, Mul(y, q), t);
    MulAssoc(x, y, q);
    MulComm(x, y);
    MulAssoc(y, x, q);
    MulAdd(y, t, Mul(x, q));
    MulAdd(x, r, t);
    SpareTerms(c, Mul(y, Mul(x, q)), Mul(x, t), Mul(r, t));
  }

  lemma SpareTerms(c: Gf, p: Gf, xt: Gf, rt: Gf)
    ensures Add(c, Add(p, xt)) == Add(Add(Add(xt, rt), p), Add(c, rt))
  {
    hide Add;
    AddComm(xt, rt);
    AddAssoc(rt, xt, p);
    AddComm(rt, Add(xt, p));
    AddComm(c, rt);
    MiddleCancels(Add(xt, p), rt, c);
    AddComm(xt, p);
    AddComm(Add(p, xt), c);
  }

  lemma MiddleCancels(a: Gf, b: Gf, c: Gf)
    ensures Add(Add(a, b), Add(b, c)) == Add(a, c)
  {
  }

  /** A polynomial with as many different roots as coefficients is zero. */
  lemma {:induction false} ManyRoots(f: seq<Gf>, from: nat)
    requires from + |f| < 255
    requires forall i | from < i <= from + |f| :: Eval(f, Pow(X, i)) == ZERO
    ensures f == ZeroSeq(|f|)
    decreases |f|
  {
    hide Mul, Add, Pow, Eval;
    if f != [] {
      var r := Pow(X, from + 1);
      var q := Quotient(f, r);
      forall i | from + 1 < i <= from + |f| ensures Eval(q, Pow(X, i)) == ZERO {
        var x := Pow(X, i);
        Division(f, r, x);
        AddSelf(Mul(Add(x, r), Eval(q, x)));
        Cancel(Add(x, r), Eval(q, x));
        if Add(x, r) == ZERO {
          AddZeroEqual(x, r);
          PowersDiffer(from + 1, i);
        }
      }
      ManyRoots(q, from + 1);
      QuotientZero(f, r);
    }
  }

  lemma AddZeroEqual(a: Gf, b: Gf)
    requires Add(a, b) == ZERO
    ensures a == b
  {
  }

  lemma {:induction false} QuotientZero(f: seq<Gf>, r: Gf)
    requires f != [] && Quotient(f, r) == ZeroSeq(|f| - 1) && Eval(f, r) == ZERO
    ensures f == ZeroSeq(|f|)
    decreases |f|
  {
    hide Mul, Add;
    if |f| == 1 {
      EvalOne(f[0], r);
      assert f == [f[0]];
    } else {
      var t := f[1..];
      assert Quotient(f, r)[0] == Eval(t, r);
      assert Quotient(t, r) == ZeroSeq(|f| - 2) by { assert Quotient(f, r)[1..] == Quotient(t, r); }
      QuotientZero(t, r);
      MulZero(r);
      AddSelf(f[0]);
      assert f == [f[0]] + t;
    }
  }

  /** A word with zero syndromes is the codeword of its message part: the encoder computes the
      message times x^R modulo the generator. */
  lemma OnlyCodewords(c: seq<Gf>, n: nat)
    requires 0 < n < 255 && n <= |c| && forall i | 1 <= i <= n :: Eval(c, Pow(X, i)) == ZERO
    ensures c == Codeword(c[n..], Generating(n))
  {
    hide Mul, Add, Pow, Eval, Generating, Register;
    GeneratorShape(n);
    var msg := c[n..];
    var b, b' := c[..n], Register(msg, Generating(n));
    var d := AddSeq(b, b');
    forall i | 0 < i <= n ensures Eval(d, Pow(X, i)) == ZERO {
      var x := Pow(X, i);
      SyndromesVanish(msg, n, i);
      EvalAppend(b, msg, x);
      EvalAppend(b', msg, x);
      assert c == b + msg;
      EvalAdd(b, b', x);
      AddZeroEqual(Eval(b, x), Mul(Pow(x, n), Eval(msg, x)));
      AddZeroEqual(Eval(b', x), Mul(Pow(x, n), Eval(msg, x)));
      AddSelf(Eval(b, x));
    }
    ManyRoots(d, 0);
    forall i | 0 <= i < n ensures b[i] == b'[i] {
      assert d[i] == ZERO;
      AddZeroEqual(b[i], b'[i]);
    }
    assert b == b';
    assert c == b + msg;
  }
}
