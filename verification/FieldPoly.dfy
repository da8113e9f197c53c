/** Polynomials over GF(2^8) by their coefficients, constant term first. */
module FieldPoly {
  import opened GaloisField

  function Eval(f: seq<Gf>, x: Gf): Gf {
    if f == [] then ZERO else Add(f[0], Mul(x, Eval(f[1..], x)))
  }

  function AddSeq(f: seq<Gf>, g: seq<Gf>): (r: seq<Gf>)
    requires |f| == |g|
    ensures |r| == |f|
  {
    seq(|f|, i requires 0 <= i < |f| => Add(f[i], g[i]))
  }

  function ScaleSeq(c: Gf, f: seq<Gf>): (r: seq<Gf>)
    ensures |r| == |f|
  {
    seq(|f|, i requires 0 <= i < |f| => Mul(c, f[i]))
  }

  function ZeroSeq(n: nat): (r: seq<Gf>)
    ensures |r| == n
  {
    seq(n, _ => ZERO)
  }

  lemma EvalNext(f: seq<Gf>, x: Gf)
    requires f != []
    ensures Eval(f, x) == Add(f[0], Mul(x, Eval(f[1..], x)))
  {
  }

  lemma {:induction false} EvalAdd(f: seq<Gf>, g: seq<Gf>, x: Gf)
    requires |f| == |g|
    ensures Eval(AddSeq(f, g), x) == Add(Eval(f, x), Eval(g, x))
    decreases |f|
  {
    hide Add, Mul;
    if f == [] {
      AddSelf(ZERO);
    } else {
      EvalAdd(f[1..], g[1..], x);
      assert AddSeq(f, g)[1..] == AddSeq(f[1..], g[1..]);
      MulAdd(x, Eval(f[1..], x), Eval(g[1..], x));
      AddSwap(f[0], g[0], Mul(x, Eval(f[1..], x)), Mul(x, Eval(g[1..], x)));
    }
  }

  lemma {:induction false} EvalScale(c: Gf, f: seq<Gf>, x: Gf)
    ensures Eval(ScaleSeq(c, f), x) == Mul(c, Eval(f, x))
    decreases |f|
  {
    hide Add, Mul;
    if f == [] {
      MulZero(c);
    } else {
      EvalScale(c, f[1..], x);
      assert ScaleSeq(c, f)[1..] == ScaleSeq(c, f[1..]);
      var e := Eval(f[1..], x);
      MulAdd(c, f[0], Mul(x, e));
      MulAssoc(x, c, e);
      MulComm(x, c);
      MulAssoc(c, x, e);
    }
  }

  lemma {:induction false} EvalZero(n: nat, x: Gf)
    ensures Eval(ZeroSeq(n), x) == ZERO
  {
    hide Add, Mul;
    if n > 0 {
      EvalZero(n - 1, x);
      assert ZeroSeq(n)[1..] == ZeroSeq(n - 1);
      MulZero(x);
      AddSelf(ZERO);
    }
  }

  lemma {:induction false} EvalAppend(f: seq<Gf>, g: seq<Gf>, x: Gf)
    ensures Eval(f + g, x) == Add(Eval(f, x), Mul(Pow(x, |f|), Eval(g, x)))
    decreases |f|
  {
    hide Add, Mul;
    var e := Eval(g, x);
    if f == [] {
      assert f + g == g;
      MulZero(e);
      AddSelf(e);
    } else {
      EvalAppend(f[1..], g, x);
      assert (f + g)[1..] == f[1..] + g && (f + g)[0] == f[0];
      var p, t := Pow(x, |f| - 1), Eval(f[1..], x);
      MulAdd(x, t, Mul(p, e));
      MulAssoc(x, p, e);
      AddAssoc(f[0], Mul(x, t), Mul(Mul(x, p), e));
    }
  }

  /** f(b x), coefficient by coefficient. */
  function Dilated(f: seq<Gf>, b: Gf, k: nat): (r: seq<Gf>)
    ensures |r| == |f|
  {
    seq(|f|, i requires 0 <= i < |f| => Mul(Pow(b, k + i), f[i]))
  }

  lemma {:induction false} EvalDilated(f: seq<Gf>, b: Gf, k: nat, x: Gf)
    ensures Eval(Dilated(f, b, k), x) == Mul(Pow(b, k), Eval(f, Mul(b, x)))
    decreases |f|
  {
    hide Add, Mul, Pow;
    if f == [] {
      MulZero(Pow(b, k));
    } else {
      EvalDilated(f[1..], b, k + 1, x);
      assert Dilated(f, b, k)[1..] == Dilated(f[1..], b, k + 1);
      var e, p := Eval(f[1..], Mul(b, x)), Pow(b, k);
      PowAdd(b, 1, k);
      PowOne(b);
      DilateTerm(b, p, x, e);
      MulAdd(p, f[0], Mul(Mul(b, x), e));
    }
  }

  lemma DilateTerm(b: Gf, p: Gf, x: Gf, e: Gf)
    ensures Mul(x, Mul(Mul(b, p), e)) == Mul(p, Mul(Mul(b, x), e))
  {
    hide Mul;
    MulAssoc(x, Mul(b, p), e);
    MulComm(b, p);
    MulAssoc(x, p, b);
    MulComm(x, p);
    MulAssoc(p, x, b);
    MulComm(x, b);
    MulAssoc(p, Mul(b, x), e);
  }

  lemma EvalOne(a: Gf, x: Gf)
    ensures Eval([a], x) == a
  {
    hide Mul, Add;
    MulZero(x);
    AddSelf(a);
    assert Eval([a][1..], x) == ZERO;
  }
}
