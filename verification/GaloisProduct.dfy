/** The decoder's product in GF(2^8): a 15-bit carry-less product out of integer multiplications,
    folded down twice, proved to be the field's product. */
module GaloisProduct {
  import opened ModArith
  import opened Bits
  import opened GaloisField
  import P = BinaryPoly
  import C = CarrylessWord

  type Half = w: BitSeq | |w| == 16 witness Zeros(16)

  function Low(w: Half): Gf { Gf(w[..8]) }

  function High(w: Half): Gf { Gf(w[8..]) }

  /** x^8 = x^4 + x^3 + x^2 + 1. */
  const X8: Gf := Gf([true, false, true, true, true, false, false, false])

  /** The element a 16-bit polynomial stands for. */
  function Value(w: Half): Gf { Add(Low(w), Mul(X8, High(w))) }

  lemma ValueAdd(u: Half, v: Half)
    ensures Value(Xor(u, v)) == Add(Value(u), Value(v))
  {
    PartsAdd(u, v);
    hide Mul, Add, Low, High;
    MulAdd(X8, High(u), High(v));
    AddSwap(Low(u), Low(v), Mul(X8, High(u)), Mul(X8, High(v)));
  }

  lemma PartsAdd(u: Half, v: Half)
    ensures Low(Xor(u, v)) == Add(Low(u), Low(v)) && High(Xor(u, v)) == Add(High(u), High(v))
  {
    SameElement(Low(Xor(u, v)), Add(Low(u), Low(v)));
    SameElement(High(Xor(u, v)), Add(High(u), High(v)));
  }

  /** The word with bit 7 carried out of the low byte into the high one. */
  lemma ShiftParts(w: Half)
    requires !w[15]
    ensures Add(Low(Shl(w, 1)), Take(w[7], X8)) == TimesX(Low(w))
    ensures High(Shl(w, 1)) == Add(TimesX(High(w)), Take(w[7], ONE))
  {
    var s := Shl(w, 1);
    SameElement(Add(Low(s), Take(w[7], X8)), TimesX(Low(w)));
    SameElement(High(s), Add(TimesX(High(w)), Take(w[7], ONE)));
  }

  /** Shifting a word is multiplying its element by x. */
  lemma ValueShift(w: Half)
    requires !w[15]
    ensures Value(Shl(w, 1)) == TimesX(Value(w))
  {
    hide Mul, Add, Low, High, TimesX, Shl, Horner;
    ShiftParts(w);
    var s := Shl(w, 1);
    var l, h, t := Low(w), High(w), Take(w[7], ONE);
    MulAdd(X8, TimesX(h), t);
    MulTimesX(X8, h);
    MulTake(X8, w[7], ONE);
    MulOne(X8);
    TimesXAdd(l, Mul(X8, h));
    CarryMoves(Low(s), TimesX(l), TimesX(Mul(X8, h)), Take(w[7], X8));
  }

  lemma CarryMoves(s: Gf, l: Gf, h: Gf, t: Gf)
    requires Add(s, t) == l
    ensures Add(s, Add(h, t)) == Add(l, h)
  {
    hide Add;
    AddComm(h, t);
    AddAssoc(s, t, h);
  }

  // ------------------------------------------------------------ the product before folding

  function Wide(a: Gf): (w: Half) { a.bits + Zeros(8) }

  /** The k high bits of a against b, unreduced. */
  function Unreduced(a: Gf, b: Gf, k: nat): (w: Half)
    requires k <= 8
    decreases k
  {
    if k == 0 then Zeros(16) else Xor(Shl(Unreduced(a, b, k - 1), 1), if GBit(a, 8 - k) then Wide(b) else Zeros(16))
  }

  lemma {:induction false} UnreducedShort(a: Gf, b: Gf, k: nat, i: nat)
    requires k <= 8 && 7 + k <= i < 16
    ensures !Unreduced(a, b, k)[i]
    decreases k
  {
    if k > 0 { UnreducedShort(a, b, k - 1, i - 1); }
  }

  lemma WideValue(a: Gf)
    ensures Value(Wide(a)) == a && Value(Zeros(16)) == ZERO
  {
    WideParts(a);
    hide Mul, Add, Low, High, Wide;
    MulOne(X8);
    AddSelf(a);
    AddSelf(ZERO);
  }

  lemma WideParts(a: Gf)
    ensures High(Wide(a)) == ZERO && Low(Wide(a)) == a && High(Zeros(16)) == ZERO && Low(Zeros(16)) == ZERO
  {
    SameElement(High(Wide(a)), ZERO);
    SameElement(Low(Wide(a)), a);
    SameElement(High(Zeros(16)), ZERO);
    SameElement(Low(Zeros(16)), ZERO);
  }

  /** One more bit: a shift, and b where the bit is set. */
  lemma ValueNext(u: Half, b: Gf, t: bool, h: Gf)
    requires !u[15] && Value(u) == h
    ensures Value(Xor(Shl(u, 1), if t then Wide(b) else Zeros(16))) == Add(TimesX(h), Take(t, b))
  {
    hide Value, Add, TimesX, Wide;
    WideValue(b);
    ValueShift(u);
    ValueAdd(Shl(u, 1), if t then Wide(b) else Zeros(16));
  }

  lemma {:induction false} UnreducedValue(a: Gf, b: Gf, k: nat)
    requires k <= 8
    ensures Value(Unreduced(a, b, k)) == Horner(a, b, k)
    decreases k
  {
    hide Value, Add, TimesX, GBit, Wide, Shl, Take;
    if k == 0 {
      WideValue(b);
    } else {
      UnreducedValue(a, b, k - 1);
      UnreducedShort(a, b, k - 1, 15);
      ValueNext(Unreduced(a, b, k - 1), b, GBit(a, 8 - k), Horner(a, b, k - 1));
    }
  }

  /** The k high bits of a as a polynomial. */
  function TopPoly(a: Gf, k: nat): P.Poly
    requires k <= 8
  {
    (i: nat) => i < k && GBit(a, 8 - k + i)
  }

  function Constant(t: bool): P.Poly { (i: nat) => i == 0 && t }

  lemma {:induction false} ConstantConv(t: bool, g: P.Poly, p: nat, n: nat)
    requires 1 <= n <= p + 1
    ensures P.Conv(Constant(t), g, p, n) == (t && g(p))
    decreases n
  {
    if n > 1 { ConstantConv(t, g, p, n - 1); }
  }

  lemma {:induction false} UnreducedBit(a: Gf, b: Gf, k: nat, p: nat)
    requires k <= 8 && p < 16
    ensures Unreduced(a, b, k)[p] == P.Mul(TopPoly(a, k), C.BitPoly(Wide(b)), p)
    decreases k
  {
    var g := C.BitPoly(Wide(b));
    hide GBit, Wide, P.Mul, Unreduced, TopPoly;
    if k == 0 {
      UnreducedNone(a, b, g, p);
    } else {
      if p > 0 { UnreducedBit(a, b, k - 1, p - 1); }
      UnreducedNext(a, b, k, p);
      TopProduct(a, k, g, p);
    }
  }

  lemma UnreducedNone(a: Gf, b: Gf, g: P.Poly, p: nat)
    requires p < 16
    ensures !Unreduced(a, b, 0)[p] && !P.Mul(TopPoly(a, 0), g, p)
  {
    hide GBit, Wide;
    P.ConvZeroLeft(TopPoly(a, 0), g, p, p + 1);
  }

  lemma UnreducedNext(a: Gf, b: Gf, k: nat, p: nat)
    requires 0 < k <= 8 && p < 16
    ensures Unreduced(a, b, k)[p] == ((p > 0 && Unreduced(a, b, k - 1)[p - 1]) !=
      (GBit(a, 8 - k) && C.BitPoly(Wide(b))(p)))
  {
    hide GBit, Wide;
  }

  lemma TopStep(a: Gf, k: nat, i: nat)
    requires 0 < k <= 8
    ensures TopPoly(a, k)(i) == (P.Shift(TopPoly(a, k - 1), 1)(i) != Constant(GBit(a, 8 - k))(i))
  {
    hide GBit;
  }

  lemma TopProduct(a: Gf, k: nat, g: P.Poly, p: nat)
    requires 0 < k <= 8
    ensures P.Mul(TopPoly(a, k), g, p) == ((p > 0 && P.Mul(TopPoly(a, k - 1), g, p - 1)) != (GBit(a, 8 - k) && g(p)))
  {
    hide P.Conv, GBit, TopPoly, P.Shift, Constant;
    var t, f := GBit(a, 8 - k), TopPoly(a, k - 1);
    forall i: nat | i <= p ensures TopPoly(a, k)(i) == (P.Shift(f, 1)(i) != Constant(t)(i)) { TopStep(a, k, i); }
    P.MulAddLeft(P.Shift(f, 1), Constant(t), TopPoly(a, k), g, p);
    P.MulShiftLeft(f, g, 1, p);
    ConstantConv(t, g, p, p + 1);
  }

  lemma TopIsAll(a: Gf, i: nat)
    ensures TopPoly(a, 8)(i) == C.BitPoly(Wide(a))(i)
  {
    var w := Wide(a);
    assert |w| == 16;
    if i < 8 { assert w[i] == a.bits[i] == GBit(a, i); } else if i < 16 { assert !w[i]; }
  }

  /** The integer-multiply product is the unreduced one. */
  lemma ProductIsUnreduced(a: Gf, b: Gf)
    ensures C.BMul(Wide(a), Wide(b)) == Unreduced(a, b, 8)
  {
    hide C.BMul, P.Conv, P.Mul, Unreduced, TopPoly, Wide;
    forall p: nat | p < 16 ensures C.BMul(Wide(a), Wide(b))[p] == Unreduced(a, b, 8)[p] {
      C.BMulIs(Wide(a), Wide(b), p);
      UnreducedBit(a, b, 8, p);
      forall i: nat | i <= p ensures TopPoly(a, 8)(i) == C.BitPoly(Wide(a))(i) { TopIsAll(a, i); }
      P.MulSame(TopPoly(a, 8), C.BitPoly(Wide(b)), C.BitPoly(Wide(a)), C.BitPoly(Wide(b)), p);
    }
  }

  // ------------------------------------------------------------ folding

  function LowByte(w: Half): (r: Half) { And(w, seq(16, i requires 0 <= i < 16 => i < 8)) }

  /** (p & 0xff) ^ hi ^ hi << 2 ^ hi << 3 ^ hi << 4, hi the high byte. */
  function Fold(w: Half): (r: Half) {
    var hi := Shr(w, 8);
    Xor(Xor(Xor(Xor(LowByte(w), hi), Shl(hi, 2)), Shl(hi, 3)), Shl(hi, 4))
  }

  lemma ShlTwice(w: Half, k: nat)
    ensures Shl(Shl(w, k), 1) == Shl(w, k + 1)
  {
  }

  /** Shifts of a byte: powers of x times it. */
  lemma ShiftValues(w: Half)
    requires forall i | 8 <= i < 16 :: !w[i]
    ensures var v := Value(w);
      && Value(Shl(w, 2)) == TimesX(TimesX(v)) && Value(Shl(w, 3)) == TimesX(TimesX(TimesX(v)))
      && Value(Shl(w, 4)) == TimesX(TimesX(TimesX(TimesX(v))))
  {
    hide Value, TimesX;
    ShlTwice(w, 1);
    ShlTwice(w, 2);
    ShlTwice(w, 3);
    ValueShift(w);
    ValueShift(Shl(w, 1));
    ValueShift(Shl(w, 2));
    ValueShift(Shl(w, 3));
  }

  /** x^8 h out of shifts of h. */
  lemma TimesX8(h: Gf)
    ensures Mul(X8, h) == Add(Add(Add(h, TimesX(TimesX(h))), TimesX(TimesX(TimesX(h)))),
      TimesX(TimesX(TimesX(TimesX(h)))))
  {
    hide Mul, Add;
    var x2, x3, x4 := TimesX(TimesX(ONE)), TimesX(TimesX(TimesX(ONE))), TimesX(TimesX(TimesX(TimesX(ONE))));
    assert X8 == Add(Add(Add(ONE, x2), x3), x4) by { SumOfPowers(); }
    hide TimesX;
    MulZero(h);
    MulLeftTimesX(ONE, h);
    MulLeftTimesX(TimesX(ONE), h);
    MulLeftTimesX(x2, h);
    MulLeftTimesX(x3, h);
    MulAdd(Add(Add(ONE, x2), x3), x4, h);
    MulAdd(Add(ONE, x2), x3, h);
    MulAdd(ONE, x2, h);
  }

  lemma SumOfPowers()
    ensures X8 == Add(Add(Add(ONE, TimesX(TimesX(ONE))), TimesX(TimesX(TimesX(ONE)))),
      TimesX(TimesX(TimesX(TimesX(ONE)))))
  {
    var x2, x3 := TimesX(TimesX(ONE)), TimesX(TimesX(TimesX(ONE)));
    SameElement(X8, Add(Add(Add(ONE, x2), x3), TimesX(x3)));
  }

  lemma FoldParts(w: Half)
    ensures Value(LowByte(w)) == Low(w) && Value(Shr(w, 8)) == High(w)
    ensures forall i | 8 <= i < 16 :: !Shr(w, 8)[i]
  {
    var l, h := LowByte(w), Shr(w, 8);
    SameElement(High(l), ZERO);
    SameElement(Low(l), Low(w));
    SameElement(High(h), ZERO);
    SameElement(Low(h), High(w));
    hide Mul, Add, Low, High;
    MulOne(X8);
    AddSelf(Low(w));
    AddSelf(High(w));
  }

  lemma FiveTerms(l: Gf, a: Gf, b: Gf, c: Gf, d: Gf)
    ensures Add(Add(Add(Add(l, a), b), c), d) == Add(l, Add(Add(Add(a, b), c), d))
  {
    hide Add;
    AddAssoc(l, a, b);
    AddAssoc(l, Add(a, b), c);
    AddAssoc(l, Add(Add(a, b), c), d);
  }

  /** Folding keeps the element. */
  lemma FoldValue(w: Half)
    ensures Value(Fold(w)) == Value(w)
  {
    hide Mul, Add, Low, High, TimesX, LowByte, Shl;
    FoldParts(w);
    var l, h := LowByte(w), Shr(w, 8);
    ShiftValues(h);
    TimesX8(High(w));
    var s1 := Xor(l, h);
    var s2 := Xor(s1, Shl(h, 2));
    var s3 := Xor(s2, Shl(h, 3));
    assert Fold(w) == Xor(s3, Shl(h, 4));
    assert Value(w) == Add(Low(w), Mul(X8, High(w)));
    hide Value;
    ValueAdd(l, h);
    ValueAdd(s1, Shl(h, 2));
    ValueAdd(s2, Shl(h, 3));
    ValueAdd(s3, Shl(h, 4));
    var v := High(w);
    FiveTerms(Low(w), v, TimesX(TimesX(v)), TimesX(TimesX(TimesX(v))), TimesX(TimesX(TimesX(TimesX(v)))));
  }

  /** Two folds leave a byte. */
  lemma FoldShort(w: Half)
    requires !w[15]
    ensures High(Fold(Fold(w))) == ZERO
  {
    hide Fold;
    var u := Fold(w);
    FoldHigh(w);
    FoldHigh(u);
    SameElement(High(Fold(u)), ZERO);
  }

  lemma FoldHigh(w: Half)
    ensures forall i | 12 <= i < 16 :: !Fold(w)[i]
    ensures !w[15] ==> !Fold(w)[11]
    ensures (forall i | 11 <= i < 16 :: !w[i]) ==> forall i | 8 <= i < 16 :: !Fold(w)[i]
  {
    var hi := Shr(w, 8);
    forall i | 8 <= i < 16
      ensures Fold(w)[i] == (((i - 2 < 8 && w[i + 6]) != (i - 3 < 8 && w[i + 5])) != (i - 4 < 8 && w[i + 4]))
    {
      assert Shl(hi, 2)[i] == hi[i - 2] && Shl(hi, 3)[i] == hi[i - 3] && Shl(hi, 4)[i] == hi[i - 4];
    }
  }

  /** The code's product: sixteen masked integer multiplications and two folds. */
  function MulCode(a: Gf, b: Gf): Gf { Low(Fold(Fold(C.BMul(Wide(a), Wide(b))))) }

  /** It is the product in the field. */
  lemma MulCodeIs(a: Gf, b: Gf)
    ensures MulCode(a, b) == Mul(a, b)
  {
    hide Mul, Add, Low, High, Fold, C.BMul, Unreduced, Wide, Horner;
    ProductIsUnreduced(a, b);
    UnreducedShort(a, b, 8, 15);
    UnreducedValue(a, b, 8);
    var w := Unreduced(a, b, 8);
    FoldValue(w);
    FoldValue(Fold(w));
    FoldShort(w);
    MulOne(X8);
    AddSelf(Low(Fold(Fold(w))));
    assert Mul(a, b) == Horner(a, b, 8) by { MulIsHorner(a, b); }
  }

  lemma MulIsHorner(a: Gf, b: Gf)
    ensures Mul(a, b) == Horner(a, b, 8)
  {
    hide Horner;
  }
}
