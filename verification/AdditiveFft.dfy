/** The Gao-Mateer additive FFT over GF(2^8), proved to evaluate its polynomial at every element
    of the field. */
module AdditiveFft {
  import opened ModArith
  import opened GaloisField
  import opened FieldPoly

  // ------------------------------------------------------------ radix conversion

  /** f(x) = f0(x^2 + x) + x f1(x^2 + x). */
  datatype Split = Split(f0: seq<Gf>, f1: seq<Gf>)

  /** Where the quotient and the remainder by (x^2 + x)^n start. */
  function QuotientPart(f: seq<Gf>, n: nat): (q: seq<Gf>)
    requires |f| == 4 * n
    ensures |q| == 2 * n
  {
    AddSeq(f[2 * n..3 * n], f[3 * n..]) + f[3 * n..]
  }

  function RemainderPart(f: seq<Gf>, n: nat): (r: seq<Gf>)
    requires |f| == 4 * n
    ensures |r| == 2 * n
  {
    f[..n] + AddSeq(f[n..2 * n], AddSeq(f[2 * n..3 * n], f[3 * n..]))
  }

  function Radix(f: seq<Gf>, k: nat): (s: Split)
    requires 1 <= k && |f| == Pow2(k)
    ensures |s.f0| == |s.f1| == Pow2(k - 1)
    decreases k
  {
    if k == 1 then Split([f[0]], [f[1]]) else
      var n := Pow2(k - 2);
      assert Pow2(k - 1) == 2 * n;
      var q, r := Radix(QuotientPart(f, n), k - 1), Radix(RemainderPart(f, n), k - 1);
      Split(r.f0 + q.f0, r.f1 + q.f1)
  }

  /** x^2 + x. */
  function Artin(x: Gf): Gf { Add(Square(x), x) }

  lemma RadixUnfold(f: seq<Gf>, k: nat, n: nat)
    requires 2 <= k && |f| == Pow2(k) && n == Pow2(k - 2)
    ensures |f| == 4 * n && Pow2(k - 1) == 2 * n
    ensures var q, r := Radix(QuotientPart(f, n), k - 1), Radix(RemainderPart(f, n), k - 1);
      Radix(f, k) == Split(r.f0 + q.f0, r.f1 + q.f1)
  {
  }

  lemma {:induction false} Pow2IsPower(k: nat)
    ensures PowerOfTwo(k) == Pow2(k)
  {
    if k > 0 { Pow2IsPower(k - 1); }
  }

  /** (x^2 + x)^n = x^2n + x^n for a power of two n. */
  lemma ArtinPower(x: Gf, k: nat, n: nat)
    requires n == Pow2(k)
    ensures Pow(Artin(x), n) == Add(Pow(x, 2 * n), Pow(x, n))
  {
    hide Mul, Add, Pow;
    Pow2IsPower(k);
    FrobeniusIsPow(Artin(x), k, n);
    FrobeniusHom(Square(x), x, k);
    FrobeniusIsPow(x, k, n);
    FrobeniusIsPow(Square(x), k, n);
    PowOne(x);
    PowAdd(x, 1, 1);
    PowMul(x, 2, n, 2 * n);
  }

  /** f as four blocks: the value from the quotient and the remainder. */
  lemma QuotientRemainder(f: seq<Gf>, k: nat, n: nat, x: Gf)
    requires n == Pow2(k) && |f| == 4 * n
    ensures Eval(f, x) == Add(Eval(RemainderPart(f, n), x), Mul(Pow(Artin(x), n), Eval(QuotientPart(f, n), x)))
  {
    hide Mul, Add, Pow, AddSeq, Eval;
    var a, b, c, d := f[..n], f[n..2 * n], f[2 * n..3 * n], f[3 * n..];
    FourBlocks(f, n);
    EvalAppend(a, b + (c + d), x);
    EvalAppend(b, c + d, x);
    EvalAppend(c, d, x);
    EvalAppend(a, AddSeq(b, AddSeq(c, d)), x);
    EvalAppend(AddSeq(c, d), d, x);
    EvalAdd(b, AddSeq(c, d), x);
    EvalAdd(c, d, x);
    ArtinPower(x, k, n);
    PowAdd(x, n, n);
    BlockAlgebra(Eval(a, x), Eval(b, x), Eval(c, x), Eval(d, x), Pow(x, n));
  }

  lemma FourBlocks(f: seq<Gf>, n: nat)
    requires |f| == 4 * n
    ensures f == f[..n] + (f[n..2 * n] + (f[2 * n..3 * n] + f[3 * n..]))
  {
  }

  /** a + p(b + p(c + p d)) = a + p(b + c + d) + (p^2 + p)(c + d + p d). */
  lemma BlockAlgebra(a: Gf, b: Gf, c: Gf, d: Gf, p: Gf)
    ensures Add(a, Mul(p, Add(b, Mul(p, Add(c, Mul(p, d))))))
      == Add(Add(a, Mul(p, Add(b, Add(c, d)))), Mul(Add(Mul(p, p), p), Add(Add(c, d), Mul(p, d))))
  {
    hide Mul, Add;
    var pd := Mul(p, d);
    var e := Add(c, pd);
    // (p^2 + p)(e + d) = p^2 e + p^2 d + p e + p d
    var z := Add(Add(c, d), pd);
    SumTurn(c, d, pd);
    MulAdd(Mul(p, p), p, z);
    MulAssoc(p, p, z);
    MulAdd(p, Mul(p, z), z);
    MulAdd(p, b, Mul(p, e));
    MulAdd(p, b, Add(c, d));
    MulAdd(p, e, d);
    MulAdd(p, Mul(p, e), pd);
    MulAdd(p, Add(c, d), pd);
    FinalSum(a, Mul(p, b), Mul(p, Mul(p, e)), Mul(p, Add(c, d)), Mul(p, pd));
  }

  lemma SumTurn(c: Gf, d: Gf, e: Gf)
    ensures Add(Add(c, d), e) == Add(Add(c, e), d)
  {
  }

  lemma FinalSum(a: Gf, b: Gf, e: Gf, s: Gf, t: Gf)
    ensures Add(a, Add(b, e)) == Add(Add(a, Add(b, s)), Add(Add(e, t), Add(s, t)))
  {
  }

  lemma CombineHalves(r0: Gf, q0: Gf, r1: Gf, q1: Gf, p: Gf, x: Gf)
    ensures Add(Add(r0, Mul(x, r1)), Mul(p, Add(q0, Mul(x, q1)))) ==
      Add(Add(r0, Mul(p, q0)), Mul(x, Add(r1, Mul(p, q1))))
  {
    hide Mul, Add;
    MulAdd(p, q0, Mul(x, q1));
    MulAdd(x, r1, Mul(p, q1));
    MulAssoc(p, x, q1);
    MulComm(p, x);
    MulAssoc(x, p, q1);
    AddSwap(r0, Mul(x, r1), Mul(p, q0), Mul(x, Mul(p, q1)));
  }

  /** The conversion: f(x) = f0(x^2 + x) + x f1(x^2 + x). */
  lemma {:induction false} RadixEval(f: seq<Gf>, k: nat, x: Gf)
    requires 1 <= k && |f| == Pow2(k)
    ensures Eval(f, x) == Add(Eval(Radix(f, k).f0, Artin(x)), Mul(x, Eval(Radix(f, k).f1, Artin(x))))
    decreases k
  {
    hide Mul, Add, Pow, Artin, QuotientPart, RemainderPart;
    var y := Artin(x);
    if k == 1 {
      RadixTwo(f, x, y);
    } else {
      var n := Pow2(k - 2);
      hide Radix, Eval;
      RadixUnfold(f, k, n);
      var q, r := Radix(QuotientPart(f, n), k - 1), Radix(RemainderPart(f, n), k - 1);
      RadixEval(QuotientPart(f, n), k - 1, x);
      RadixEval(RemainderPart(f, n), k - 1, x);
      QuotientRemainder(f, k - 2, n, x);
      EvalAppend(r.f0, q.f0, y);
      EvalAppend(r.f1, q.f1, y);
      CombineHalves(Eval(r.f0, y), Eval(q.f0, y), Eval(r.f1, y), Eval(q.f1, y), Pow(y, n), x);
    }
  }

  lemma EvalTwo(a: Gf, b: Gf, x: Gf)
    ensures Eval([a, b], x) == Add(a, Mul(x, b))
  {
    hide Mul, Add;
    EvalOne(b, x);
    assert [a, b][1..] == [b];
  }

  lemma RadixTwo(f: seq<Gf>, x: Gf, y: Gf)
    requires |f| == Pow2(1)
    ensures Eval(f, x) == Add(Eval(Radix(f, 1).f0, y), Mul(x, Eval(Radix(f, 1).f1, y)))
  {
    hide Mul, Add, Eval;
    assert f == [f[0], f[1]];
    EvalTwo(f[0], f[1], x);
    EvalOne(f[0], y);
    EvalOne(f[1], y);
  }

  // ------------------------------------------------------------ degrees

  /** f is zero from index c on. */
  predicate ZeroFrom(f: seq<Gf>, c: nat) { forall i | c <= i < |f| :: f[i] == ZERO }

  lemma PartsAt(f: seq<Gf>, n: nat, i: nat)
    requires |f| == 4 * n && i < n
    ensures QuotientPart(f, n)[i] == Add(f[3 * n + i], f[2 * n + i]) && QuotientPart(f, n)[n + i] == f[3 * n + i]
    ensures RemainderPart(f, n)[i] == f[i] && RemainderPart(f, n)[n + i] == Add(f[n + i], QuotientPart(f, n)[i])
  {
    hide Add;
    AddComm(f[3 * n + i], f[2 * n + i]);
  }

  lemma QuotientZero(f: seq<Gf>, n: nat, c: nat)
    requires |f| == 4 * n && ZeroFrom(f, c)
    ensures ZeroFrom(QuotientPart(f, n), if c <= 2 * n then 0 else c - 2 * n)
  {
    hide Add, QuotientPart, RemainderPart;
    AddSelf(ZERO);
    var d := if c <= 2 * n then 0 else c - 2 * n;
    forall i | d <= i < 2 * n ensures QuotientPart(f, n)[i] == ZERO {
      if i < n { PartsAt(f, n, i); } else { PartsAt(f, n, i - n); }
    }
  }

  lemma RemainderZero(f: seq<Gf>, n: nat, c: nat)
    requires |f| == 4 * n && ZeroFrom(f, c) && c <= 2 * n
    ensures ZeroFrom(RemainderPart(f, n), c)
  {
    hide Add, QuotientPart, RemainderPart;
    QuotientZero(f, n, c);
    AddSelf(ZERO);
    forall i | c <= i < 2 * n ensures RemainderPart(f, n)[i] == ZERO {
      if i < n { PartsAt(f, n, i); } else { PartsAt(f, n, i - n); }
    }
  }

  /** The halves of a short polynomial are short. */
  lemma {:induction false} RadixZero(f: seq<Gf>, k: nat, c: nat)
    requires 1 <= k && |f| == Pow2(k) && ZeroFrom(f, c)
    ensures ZeroFrom(Radix(f, k).f0, (c + 1) / 2) && ZeroFrom(Radix(f, k).f1, c / 2)
    decreases k
  {
    hide QuotientPart, RemainderPart;
    if k > 1 {
      var n := Pow2(k - 2);
      RadixUnfold(f, k, n);
      hide Radix;
      QuotientZero(f, n, c);
      if c <= 2 * n {
        RemainderZero(f, n, c);
        RadixZero(QuotientPart(f, n), k - 1, 0);
        RadixZero(RemainderPart(f, n), k - 1, c);
      } else {
        RadixZero(QuotientPart(f, n), k - 1, c - 2 * n);
      }
    }
  }

  // ------------------------------------------------------------ the unrolled conversions

  lemma RadixOf2(f: seq<Gf>)
    requires |f| == 2 && Pow2(1) == 2
    ensures Radix(f, 1) == Split([f[0]], [f[1]])
  {
  }

  lemma RadixOf4(f: seq<Gf>)
    requires |f| == 4
    ensures Pow2(2) == 4 && Radix(f, 2) == Split([f[0], Add(f[2], f[3])], [Add(f[1], Add(f[2], f[3])), f[3]])
  {
    hide Add, Radix;
    var n := 1;
    Pow2Small();
    RadixUnfold(f, 2, n);
    RadixOf2(QuotientPart(f, n));
    RadixOf2(RemainderPart(f, n));
  }

  lemma Pow2Small()
    ensures Pow2(0) == 1 && Pow2(1) == 2 && Pow2(2) == 4 && Pow2(3) == 8 && Pow2(4) == 16
  {
    Pow2Values();
  }

  /** The eight-coefficient conversion as the code spells it. */
  function Small8(f: seq<Gf>): (s: Split)
    requires |f| == 8
    ensures |s.f0| == |s.f1| == 4
  {
    var p2 := Add(f[4], f[6]);
    var p3 := Add(f[6], f[7]);
    var q1 := Add(Add(f[3], f[5]), f[7]);
    var q2 := Add(f[5], f[6]);
    var p1 := Add(Add(f[2], p2), q1);
    Split([f[0], p1, p2, p3], [Add(f[1], p1), q1, q2, f[7]])
  }

  lemma Small8Sums(a1: Gf, a2: Gf, a3: Gf, a4: Gf, a5: Gf, a6: Gf, a7: Gf)
    ensures Add(Add(a2, Add(a4, a6)), Add(a3, Add(a5, a7))) == Add(Add(a2, Add(a4, a6)), Add(Add(a3, a5), a7))
    ensures Add(a3, Add(a5, a7)) == Add(Add(a3, a5), a7)
    ensures Add(Add(a5, a7), Add(a6, a7)) == Add(a5, a6)
  {
    hide Add;
    AddAssoc(a3, a5, a7);
    AddComm(a6, a7);
    Collapse(a5, a7, a6);
  }

  lemma Collapse(a: Gf, b: Gf, c: Gf)
    ensures Add(Add(a, b), Add(b, c)) == Add(a, c)
  {
  }

  lemma RadixOf8(f: seq<Gf>)
    requires |f| == 8
    ensures Pow2(3) == 8 && Radix(f, 3) == Small8(f)
  {
    hide Add, Radix;
    var n := 2;
    Pow2Small();
    RadixUnfold(f, 3, n);
    RadixOf4(QuotientPart(f, n));
    RadixOf4(RemainderPart(f, n));
    Small8Sums(f[1], f[2], f[3], f[4], f[5], f[6], f[7]);
  }

  /** The sixteen-coefficient conversion as the code spells it. */
  function Small16(f: seq<Gf>): (s: Split)
    requires |f| == 16
    ensures |s.f0| == |s.f1| == 8
  {
    var p4 := Add(f[8], f[12]);
    var p6 := Add(f[12], f[14]);
    var p7 := Add(f[14], f[15]);
    var q5 := Add(f[11], f[13]);
    var q6 := Add(f[13], f[14]);
    var p5 := Add(Add(f[10], f[12]), q5);
    var q4 := Add(Add(f[9], f[13]), p5);
    var q3 := Add(Add(f[7], f[11]), f[15]);
    var p3 := Add(Add(Add(f[6], f[10]), f[14]), q3);
    var p2 := Add(Add(Add(f[4], p4), p3), q3);
    var q1 := Add(Add(Add(Add(f[3], f[5]), f[9]), f[13]), q3);
    var q2 := Add(Add(f[3], q1), p3);
    var p1 := Add(Add(f[2], p2), q1);
    var q0 := Add(f[1], p1);
    Split([f[0], p1, p2, p3, p4, p5, p6, p7], [q0, q1, q2, q3, q4, q5, q6, f[15]])
  }

  lemma AddThree(a: Gf, b: Gf, c: Gf)
    ensures Add(a, Add(b, c)) == Add(Add(a, b), c)
  {
  }

  /** Sums in the quotient's half. */
  lemma HighSums(f10: Gf, f11: Gf, f12: Gf, f13: Gf, f14: Gf, f15: Gf)
    ensures Add(Add(Add(f11, f15), f13), f15) == Add(f11, f13)
    ensures Add(Add(Add(f10, f14), Add(f12, f14)), Add(f11, f13)) == Add(Add(f10, f12), Add(f11, f13))
  {
  }

  /** Sums in the remainder's half, r6 and r7 its two top coefficients. */
  lemma LowSums(f3: Gf, f4: Gf, p4: Gf, a: Gf, r6: Gf, r7: Gf)
    ensures Add(Add(f4, p4), r6) == Add(Add(Add(f4, p4), Add(r6, r7)), r7)
    ensures Add(a, r6) == Add(Add(f3, Add(Add(f3, a), r7)), Add(r6, r7))
  {
  }

  lemma FourSum(f3: Gf, f5: Gf, f9: Gf, f13: Gf)
    ensures Add(Add(Add(f3, f5), f9), f13) == Add(f3, Add(f5, Add(f9, f13)))
  {
  }

  lemma RadixOf16(f: seq<Gf>)
    requires |f| == 16
    ensures Pow2(4) == 16 && Radix(f, 4) == Small16(f)
  {
    hide Add, Radix;
    var n := 4;
    Pow2Small();
    RadixUnfold(f, 4, n);
    RadixOf8(QuotientPart(f, n));
    RadixOf8(RemainderPart(f, n));
    Small16Quotient(f, QuotientPart(f, n));
    Small16Remainder(f, RemainderPart(f, n));
  }

  lemma Small16Quotient(f: seq<Gf>, q: seq<Gf>)
    requires |f| == 16 && q == QuotientPart(f, 4)
    ensures Small8(q) == Split(Small16(f).f0[4..], Small16(f).f1[4..])
  {
    hide Add;
    HighSums(f[10], f[11], f[12], f[13], f[14], f[15]);
  }

  lemma Small16Remainder(f: seq<Gf>, r: seq<Gf>)
    requires |f| == 16 && r == RemainderPart(f, 4)
    ensures Small8(r) == Split(Small16(f).f0[..4], Small16(f).f1[..4])
  {
    hide Add;
    AddThree(f[4], f[8], f[12]);
    AddThree(f[6], f[10], f[14]);
    AddThree(f[7], f[11], f[15]);
    FourSum(f[3], f[5], f[9], f[13]);
    LowSums(f[3], f[4], Add(f[8], f[12]), Add(f[5], Add(f[9], f[13])), r[6], r[7]);
  }
}
