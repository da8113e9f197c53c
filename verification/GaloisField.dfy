/** GF(2^8) with x^8 = x^4 + x^3 + x^2 + 1: the field laws of a shift-and-add multiplication, the
    integer-multiply form the decoder uses for secret operands, and the inverse chain. */
module GaloisField {
  import opened Bits

  /** A field element: its eight coefficients, constant term first. */
  datatype Gf = Gf(bits: Octet)

  const ZERO: Gf := Gf(Zeros(8))
  const ONE: Gf := Gf([true, false, false, false, false, false, false, false])

  function Add(a: Gf, b: Gf): Gf { Gf(Xor(a.bits, b.bits)) }

  /** Multiplication by x. */
  function TimesX(a: Gf): Gf {
    Gf(seq(8, i requires 0 <= i < 8 => (i > 0 && a.bits[i - 1]) != (a.bits[7] && (i == 0 || 2 <= i <= 4))))
  }

  function Take(t: bool, b: Gf): Gf { if t then b else ZERO }

  predicate GBit(a: Gf, i: nat)
    requires i < 8
  {
    a.bits[i]
  }

  /** The k high bits of a, applied to b by Horner's rule. */
  function Horner(a: Gf, b: Gf, k: nat): Gf
    requires k <= 8
    decreases k
  {
    if k == 0 then ZERO else Add(TimesX(Horner(a, b, k - 1)), Take(GBit(a, 8 - k), b))
  }

  /** The product in the field. */
  function Mul(a: Gf, b: Gf): Gf { Horner(a, b, 8) }

  // ------------------------------------------------------------ the additive group

  lemma SameElement(a: Gf, b: Gf)
    requires forall t: nat | t < 8 :: GBit(a, t) == GBit(b, t)
    ensures a == b
  {
    forall t | 0 <= t < 8 ensures a.bits[t] == b.bits[t] { assert GBit(a, t) == GBit(b, t); }
    assert a.bits == b.bits;
  }

  lemma AddBit(a: Gf, b: Gf, t: nat)
    requires t < 8
    ensures GBit(Add(a, b), t) == (GBit(a, t) != GBit(b, t)) && !GBit(ZERO, t)
  {
  }

  lemma AddComm(a: Gf, b: Gf)
    ensures Add(a, b) == Add(b, a)
  {
    SameElement(Add(a, b), Add(b, a));
  }

  lemma AddAssoc(a: Gf, b: Gf, c: Gf)
    ensures Add(Add(a, b), c) == Add(a, Add(b, c))
  {
    SameElement(Add(Add(a, b), c), Add(a, Add(b, c)));
  }

  lemma AddSelf(a: Gf)
    ensures Add(a, a) == ZERO && Add(a, ZERO) == a && Add(ZERO, a) == a
  {
    SameElement(Add(a, a), ZERO);
    SameElement(Add(a, ZERO), a);
    SameElement(Add(ZERO, a), a);
  }

  lemma AddSwap(a: Gf, b: Gf, c: Gf, d: Gf)
    ensures Add(Add(a, b), Add(c, d)) == Add(Add(a, c), Add(b, d))
  {
    hide Add;
    AddAssoc(a, b, Add(c, d));
    AddAssoc(b, c, d);
    AddComm(b, c);
    AddAssoc(c, b, d);
    AddAssoc(a, c, Add(b, d));
  }

  // ------------------------------------------------------------ linearity

  lemma TimesXAdd(a: Gf, b: Gf)
    ensures TimesX(Add(a, b)) == Add(TimesX(a), TimesX(b))
  {
    SameElement(TimesX(Add(a, b)), Add(TimesX(a), TimesX(b)));
  }

  lemma TakeAdd(t: bool, a: Gf, b: Gf)
    ensures Take(t, Add(a, b)) == Add(Take(t, a), Take(t, b))
  {
    hide Add;
    AddSelf(ZERO);
  }

  lemma BitAdd(a: Gf, b: Gf, i: nat, c: Gf)
    requires i < 8
    ensures Take(GBit(Add(a, b), i), c) == Add(Take(GBit(a, i), c), Take(GBit(b, i), c))
  {
    AddBit(a, b, i);
    hide Add, GBit;
    AddSelf(c);
    AddSelf(ZERO);
  }

  lemma {:induction false} HornerAddRight(a: Gf, b: Gf, c: Gf, k: nat)
    requires k <= 8
    ensures Horner(a, Add(b, c), k) == Add(Horner(a, b, k), Horner(a, c, k))
    decreases k
  {
    hide TimesX, Take, GBit, Add;
    if k == 0 {
      AddSelf(ZERO);
    } else {
      HornerAddRight(a, b, c, k - 1);
      var t := GBit(a, 8 - k);
      TimesXAdd(Horner(a, b, k - 1), Horner(a, c, k - 1));
      TakeAdd(t, b, c);
      AddSwap(TimesX(Horner(a, b, k - 1)), TimesX(Horner(a, c, k - 1)), Take(t, b), Take(t, c));
    }
  }

  lemma {:induction false} HornerAddLeft(a: Gf, b: Gf, c: Gf, k: nat)
    requires k <= 8
    ensures Horner(Add(a, b), c, k) == Add(Horner(a, c, k), Horner(b, c, k))
    decreases k
  {
    hide TimesX, Take, GBit, Add;
    if k == 0 {
      AddSelf(ZERO);
    } else {
      HornerAddLeft(a, b, c, k - 1);
      TimesXAdd(Horner(a, c, k - 1), Horner(b, c, k - 1));
      BitAdd(a, b, 8 - k, c);
      AddSwap(TimesX(Horner(a, c, k - 1)), TimesX(Horner(b, c, k - 1)), Take(GBit(a, 8 - k), c),
        Take(GBit(b, 8 - k), c));
    }
  }

  lemma MulAdd(a: Gf, b: Gf, c: Gf)
    ensures Mul(a, Add(b, c)) == Add(Mul(a, b), Mul(a, c)) && Mul(Add(a, b), c) == Add(Mul(a, c), Mul(b, c))
  {
    hide Add, Horner;
    HornerAddRight(a, b, c, 8);
    HornerAddLeft(a, b, c, 8);
  }

  lemma TakeTimesX(t: bool, b: Gf)
    ensures Take(t, TimesX(b)) == TimesX(Take(t, b))
  {
    SameElement(TimesX(ZERO), ZERO);
  }

  lemma {:induction false} HornerTimesX(a: Gf, b: Gf, k: nat)
    requires k <= 8
    ensures Horner(a, TimesX(b), k) == TimesX(Horner(a, b, k))
    decreases k
  {
    hide TimesX, Take, GBit, Add;
    if k == 0 {
      assert TimesX(ZERO) == ZERO by { TakeTimesX(false, b); TakeZero(b); TakeZero(TimesX(b)); }
    } else {
      HornerTimesX(a, b, k - 1);
      TakeTimesX(GBit(a, 8 - k), b);
      TimesXAdd(TimesX(Horner(a, b, k - 1)), Take(GBit(a, 8 - k), b));
    }
  }

  lemma TakeZero(b: Gf)
    ensures Take(false, b) == ZERO && Take(true, b) == b
  {
  }

  lemma MulTimesX(a: Gf, b: Gf)
    ensures Mul(a, TimesX(b)) == TimesX(Mul(a, b))
  {
    hide Horner, TimesX;
    HornerTimesX(a, b, 8);
  }

  // ------------------------------------------------------------ the ring

  lemma HornerOne(a: Gf)
    ensures Horner(a, ONE, 8) == a
  {
    hide Horner, Top;
    TopBits(a, 8);
    TopNone(a);
  }

  /** The k high bits of a, as an element of degree below k. */
  function Top(a: Gf, k: nat): Gf
    requires k <= 8
  {
    Gf(seq(8, i requires 0 <= i < 8 => i < k && a.bits[i + 8 - k]))
  }

  lemma TopNext(a: Gf, k: nat)
    requires 0 < k <= 8
    ensures Top(a, k) == Add(TimesX(Top(a, k - 1)), Take(GBit(a, 8 - k), ONE))
  {
    SameElement(Top(a, k), Add(TimesX(Top(a, k - 1)), Take(GBit(a, 8 - k), ONE)));
  }

  lemma TopNone(a: Gf)
    ensures Top(a, 0) == ZERO && Top(a, 8) == a
  {
    SameElement(Top(a, 0), ZERO);
    SameElement(Top(a, 8), a);
  }

  lemma {:induction false} TopBits(a: Gf, k: nat)
    requires k <= 8
    ensures Horner(a, ONE, k) == Top(a, k)
    decreases k
  {
    hide Top, Add, TimesX, Take, GBit;
    if k == 0 {
      TopNone(a);
    } else {
      TopBits(a, k - 1);
      TopNext(a, k);
    }
  }

  lemma {:induction false} HornerZero(a: Gf, k: nat)
    requires k <= 8
    ensures Horner(a, ZERO, k) == ZERO
    decreases k
  {
    hide Add, TimesX, GBit;
    if k > 0 {
      HornerZero(a, k - 1);
      TakeTimesX(false, ZERO);
      AddSelf(ZERO);
    }
  }

  lemma MulOne(a: Gf)
    ensures Mul(a, ONE) == a && Mul(a, ZERO) == ZERO
  {
    hide Horner;
    HornerOne(a);
    HornerZero(a, 8);
  }

  lemma MulTake(a: Gf, t: bool, b: Gf)
    ensures Mul(a, Take(t, b)) == Take(t, Mul(a, b))
  {
    hide Mul;
    MulOne(a);
  }

  lemma {:induction false} HornerTurned(b: Gf, a: Gf, k: nat)
    requires k <= 8
    ensures Horner(b, a, k) == Mul(a, Horner(b, ONE, k))
    decreases k
  {
    hide TimesX, Take, GBit, Add, Mul;
    MulOne(a);
    if k > 0 {
      HornerTurned(b, a, k - 1);
      var h, t := Horner(b, ONE, k - 1), GBit(b, 8 - k);
      MulAdd(a, TimesX(h), Take(t, ONE));
      MulTimesX(a, h);
      MulTake(a, t, ONE);
    }
  }

  lemma MulComm(a: Gf, b: Gf)
    ensures Mul(a, b) == Mul(b, a)
  {
    hide Horner;
    HornerTurned(b, a, 8);
    HornerOne(b);
  }

  lemma MulLeftTimesX(a: Gf, b: Gf)
    ensures Mul(TimesX(a), b) == TimesX(Mul(a, b))
  {
    hide Mul, TimesX;
    MulComm(TimesX(a), b);
    MulTimesX(b, a);
    MulComm(a, b);
  }

  lemma MulLeftTake(t: bool, a: Gf, b: Gf)
    ensures Mul(Take(t, a), b) == Take(t, Mul(a, b))
  {
    hide Mul, Take;
    MulComm(Take(t, a), b);
    MulTake(b, t, a);
    MulComm(a, b);
  }

  lemma {:induction false} HornerAssoc(a: Gf, b: Gf, c: Gf, k: nat)
    requires k <= 8
    ensures Horner(a, Mul(b, c), k) == Mul(Horner(a, b, k), c)
    decreases k
  {
    hide TimesX, Take, GBit, Add, Mul;
    if k == 0 {
      MulComm(ZERO, c);
      MulOne(c);
    } else {
      HornerAssoc(a, b, c, k - 1);
      var h, t := Horner(a, b, k - 1), GBit(a, 8 - k);
      MulAdd(TimesX(h), Take(t, b), c);
      MulLeftTimesX(h, c);
      MulLeftTake(t, b, c);
    }
  }

  lemma MulAssoc(a: Gf, b: Gf, c: Gf)
    ensures Mul(Mul(a, b), c) == Mul(a, Mul(b, c))
  {
    hide Horner;
    HornerAssoc(a, b, c, 8);
  }

  lemma MulZero(a: Gf)
    ensures Mul(ZERO, a) == ZERO && Mul(a, ZERO) == ZERO && Mul(ONE, a) == a && Mul(a, ONE) == a
  {
    hide Mul;
    MulOne(a);
    MulComm(ZERO, a);
    MulComm(ONE, a);
  }

  // ------------------------------------------------------------ powers and the Frobenius map

  function Pow(a: Gf, n: nat): Gf {
    if n == 0 then ONE else Mul(a, Pow(a, n - 1))
  }

  lemma {:induction false} PowAdd(a: Gf, m: nat, n: nat)
    ensures Pow(a, m + n) == Mul(Pow(a, m), Pow(a, n))
    decreases m
  {
    hide Mul;
    if m == 0 {
      MulZero(Pow(a, n));
    } else {
      PowAdd(a, m - 1, n);
      MulAssoc(a, Pow(a, m - 1), Pow(a, n));
    }
  }

  lemma {:induction false} PowMul(a: Gf, m: nat, n: nat, mn: nat)
    requires mn == m * n
    ensures Pow(Pow(a, m), n) == Pow(a, mn)
    decreases n
  {
    hide Mul;
    if n > 0 {
      assert mn == m + m * (n - 1) && 0 <= m * (n - 1);
      PowMul(a, m, n - 1, m * (n - 1));
      PowAdd(a, m, m * (n - 1));
    }
  }

  function Square(a: Gf): Gf { Mul(a, a) }

  lemma MulSwap(a: Gf, b: Gf, c: Gf, d: Gf)
    ensures Mul(Mul(a, b), Mul(c, d)) == Mul(Mul(a, c), Mul(b, d))
  {
    hide Mul;
    MulAssoc(a, b, Mul(c, d));
    MulAssoc(b, c, d);
    MulComm(b, c);
    MulAssoc(c, b, d);
    MulAssoc(a, c, Mul(b, d));
  }

  /** Squaring is a ring homomorphism. */
  lemma SquareHom(a: Gf, b: Gf)
    ensures Square(Add(a, b)) == Add(Square(a), Square(b)) && Square(Mul(a, b)) == Mul(Square(a), Square(b))
  {
    hide Mul, Add;
    MulSwap(a, b, a, b);
    MulAdd(Add(a, b), a, b);
    MulAdd(a, b, a);
    MulAdd(a, b, b);
    MulComm(a, b);
    var p, q, r := Mul(a, a), Mul(a, b), Mul(b, b);
    AddCancel(p, q, r);
  }

  lemma AddCancel(p: Gf, q: Gf, r: Gf)
    ensures Add(Add(p, q), Add(q, r)) == Add(p, r)
  {
    SameElement(Add(Add(p, q), Add(q, r)), Add(p, r));
  }

  function Frobenius(a: Gf, n: nat): Gf {
    if n == 0 then a else Square(Frobenius(a, n - 1))
  }

  lemma {:induction false} FrobeniusHom(a: Gf, b: Gf, n: nat)
    ensures Frobenius(Add(a, b), n) == Add(Frobenius(a, n), Frobenius(b, n))
    ensures Frobenius(Mul(a, b), n) == Mul(Frobenius(a, n), Frobenius(b, n))
    decreases n
  {
    hide Square, Mul, Add;
    if n > 0 {
      FrobeniusHom(a, b, n - 1);
      SquareHom(Frobenius(a, n - 1), Frobenius(b, n - 1));
    }
  }

  const X: Gf := Gf([false, true, false, false, false, false, false, false])

  lemma TimesXIsMul(a: Gf)
    ensures TimesX(a) == Mul(X, a)
  {
    hide Mul;
    MulZero(a);
    MulLeftTimesX(ONE, a);
    SameElement(TimesX(ONE), X);
  }

  /** The square, coefficient by coefficient. */
  function Squared(a: Gf): Gf { Gf(seq(8, i requires 0 <= i < 8 => SquaredBit(a.bits, i))) }

  predicate SquaredBit(b: Octet, i: nat) {
    if i == 0 then ((b[0] != b[4]) != b[6]) != b[7]
    else if i == 1 then b[7]
    else if i == 2 then ((b[1] != b[4]) != b[5]) != b[6]
    else if i == 3 then b[4] != b[6]
    else if i == 4 then ((b[2] != b[4]) != b[5]) != b[7]
    else if i == 5 then b[5]
    else if i == 6 then (b[3] != b[5]) != b[6]
    else b[6]
  }

  lemma SquaredTimesXBit(h: Gf, i: nat)
    requires i < 8
    ensures SquaredBit(TimesX(h).bits, i) == GBit(TimesX(TimesX(Squared(h))), i)
  {
    if i < 4 {
      if i == 0 { } else if i == 1 { } else if i == 2 { } else { }
    } else {
      if i == 4 { } else if i == 5 { } else if i == 6 { } else { }
    }
  }

  lemma SquaredTimesX(h: Gf)
    ensures Squared(TimesX(h)) == TimesX(TimesX(Squared(h)))
  {
    hide TimesX, SquaredBit;
    forall i: nat | i < 8 ensures GBit(Squared(TimesX(h)), i) == GBit(TimesX(TimesX(Squared(h))), i) {
      SquaredTimesXBit(h, i);
    }
    SameElement(Squared(TimesX(h)), TimesX(TimesX(Squared(h))));
  }

  lemma SquaredAdd(a: Gf, t: bool)
    ensures Squared(Add(a, Take(t, ONE))) == Add(Squared(a), Take(t, ONE))
  {
    SameElement(Squared(Add(a, Take(t, ONE))), Add(Squared(a), Take(t, ONE)));
  }

  lemma SquareStep(h: Gf, t: bool)
    ensures Square(Add(TimesX(h), Take(t, ONE))) == Add(TimesX(TimesX(Square(h))), Take(t, ONE))
  {
    hide Mul, Add, TimesX;
    SquareHom(TimesX(h), Take(t, ONE));
    MulTimesX(TimesX(h), h);
    MulLeftTimesX(h, h);
    MulZero(ONE);
    MulZero(ZERO);
  }

  lemma {:induction false} SquareIsSquared(a: Gf, k: nat)
    requires k <= 8
    ensures Square(Horner(a, ONE, k)) == Squared(Horner(a, ONE, k))
    decreases k
  {
    hide Square, Squared, Add, TimesX, Take, GBit;
    if k == 0 {
      SquareZero();
      SquaredZero();
    } else {
      SquareIsSquared(a, k - 1);
      var h, t := Horner(a, ONE, k - 1), GBit(a, 8 - k);
      SquareStep(h, t);
      SquaredTimesX(h);
      SquaredAdd(TimesX(h), t);
    }
  }

  lemma SquaredZero()
    ensures Squared(ZERO) == ZERO
  {
    SameElement(Squared(ZERO), ZERO);
  }

  lemma SquareZero()
    ensures Square(ZERO) == ZERO && Square(ONE) == ONE
  {
    hide Mul;
    MulZero(ZERO);
    MulZero(ONE);
  }

  lemma SquareAt(a: Gf)
    ensures Square(a) == Squared(a)
  {
    hide Square, Horner;
    HornerOne(a);
    SquareIsSquared(a, 8);
  }

  /** 0 and 1 are the only fixed points of squaring. */
  lemma FixedPoints(a: Gf)
    requires Square(a) == a
    ensures a == ZERO || a == ONE
  {
    hide Square;
    SquareAt(a);
    assert forall i: nat | i < 8 :: SquaredBit(a.bits, i) == GBit(a, i) by {
      forall i: nat | i < 8 ensures SquaredBit(a.bits, i) == GBit(a, i) { assert Squared(a).bits[i] == a.bits[i]; }
    }
    if a.bits[0] { SameElement(a, ONE); } else { SameElement(a, ZERO); }
  }

  // ------------------------------------------------------------ Fermat and the inverse

  lemma SquareGives(a: Gf, b: Gf)
    requires forall i: nat | i < 8 :: SquaredBit(a.bits, i) == GBit(b, i)
    ensures Square(a) == b
  {
    hide Square, SquaredBit;
    SquareAt(a);
    SameElement(Squared(a), b);
  }

  /** x^256 = x, squaring eight times. */
  lemma FrobeniusX()
    ensures Frobenius(X, 8) == X && Frobenius(ONE, 8) == ONE && Frobenius(ZERO, 8) == ZERO
  {
    hide Square;
    var s1 := Gf([false, false, true, false, false, false, false, false]);
    var s2 := Gf([false, false, false, false, true, false, false, false]);
    var s3 := Gf([true, false, true, true, true, false, false, false]);
    var s4 := Gf([false, false, true, true, false, false, true, false]);
    var s5 := Gf([true, false, true, true, true, false, false, true]);
    var s6 := Gf([true, true, true, true, true, false, true, false]);
    var s7 := Gf([true, false, true, false, false, false, false, true]);
    SquareGives(X, s1);
    SquareGives(s1, s2);
    SquareGives(s2, s3);
    SquareGives(s3, s4);
    SquareGives(s4, s5);
    SquareGives(s5, s6);
    SquareGives(s6, s7);
    SquareGives(s7, X);
    SquareZero();
  }

  lemma FrobeniusTake(t: bool)
    ensures Frobenius(Take(t, ONE), 8) == Take(t, ONE)
  {
    hide Frobenius;
    FrobeniusX();
  }

  lemma {:induction false} FrobeniusFixes(a: Gf, k: nat)
    requires k <= 8
    ensures Frobenius(Horner(a, ONE, k), 8) == Horner(a, ONE, k)
    decreases k
  {
    hide Frobenius, Mul, Add, TimesX, Take, GBit;
    FrobeniusX();
    if k > 0 {
      FrobeniusFixes(a, k - 1);
      var h, t := Horner(a, ONE, k - 1), GBit(a, 8 - k);
      FrobeniusHom(TimesX(h), Take(t, ONE), 8);
      TimesXIsMul(h);
      FrobeniusHom(X, h, 8);
      FrobeniusTake(t);
    }
  }

  lemma {:induction false} FrobeniusIsPow(a: Gf, n: nat, e: nat)
    requires e == PowerOfTwo(n)
    ensures Frobenius(a, n) == Pow(a, e)
    decreases n
  {
    hide Mul;
    if n == 0 {
      MulZero(a);
      assert Pow(a, 1) == Mul(a, Pow(a, 0));
    } else {
      var h := PowerOfTwo(n - 1);
      FrobeniusIsPow(a, n - 1, h);
      PowAdd(a, h, h);
    }
  }

  function PowerOfTwo(n: nat): nat { if n == 0 then 1 else 2 * PowerOfTwo(n - 1) }

  /** a^256 = a. */
  lemma Fermat(a: Gf)
    ensures Pow(a, 256) == a
  {
    hide Pow, Frobenius, Horner;
    FrobeniusFixes(a, 8);
    HornerOne(a);
    assert PowerOfTwo(8) == 256;
    FrobeniusIsPow(a, 8, 256);
  }

  /** a^255 = 1 unless a = 0. */
  lemma UnitPower(a: Gf)
    requires a != ZERO
    ensures Pow(a, 255) == ONE
  {
    hide Pow, Mul;
    Fermat(a);
    PowAdd(a, 256, 254);
    PowAdd(a, 255, 255);
    PowAdd(a, 1, 254);
    PowAdd(a, 1, 255);
    PowOne(a);
    var e := Pow(a, 255);
    FixedPoints(e);
    if e == ZERO { MulZero(a); }
  }

  lemma PowOne(a: Gf)
    ensures Pow(a, 1) == a && Pow(a, 0) == ONE
  {
    hide Mul;
    MulZero(a);
    assert Pow(a, 1) == Mul(a, Pow(a, 0));
  }

  /** The inverse by a chain of eleven multiplications; 0 goes to 0. */
  function Inverse(a: Gf): Gf {
    var a2 := Square(a);
    var a3 := Mul(a2, a);
    var a4 := Square(a2);
    var a7 := Mul(a4, a3);
    var a11 := Mul(a4, a7);
    var a15 := Mul(a11, a4);
    var t := Square(Square(Square(a15)));
    Square(Mul(t, a7))
  }

  lemma InverseIsPower(a: Gf)
    ensures Inverse(a) == Pow(a, 254)
  {
    hide Pow, Mul;
    PowOne(a);
    PowAdd(a, 1, 1);
    PowAdd(a, 2, 1);
    PowAdd(a, 2, 2);
    PowAdd(a, 4, 3);
    PowAdd(a, 4, 7);
    PowAdd(a, 11, 4);
    PowAdd(a, 15, 15);
    PowAdd(a, 30, 30);
    PowAdd(a, 60, 60);
    PowAdd(a, 120, 7);
    PowAdd(a, 127, 127);
  }

  /** Every nonzero element has its inverse. */
  lemma InverseContract(a: Gf)
    ensures a != ZERO ==> Mul(a, Inverse(a)) == ONE
    ensures Inverse(ZERO) == ZERO
  {
    hide Pow, Mul, Inverse;
    InverseIsPower(a);
    InverseIsPower(ZERO);
    PowAdd(a, 1, 254);
    PowOne(a);
    PowAdd(ZERO, 1, 253);
    PowOne(ZERO);
    MulZero(Pow(ZERO, 253));
    if a != ZERO { UnitPower(a); }
  }

  /** No zero divisors. */
  lemma Cancel(a: Gf, b: Gf)
    requires Mul(a, b) == ZERO
    ensures a == ZERO || b == ZERO
  {
    hide Mul, Inverse;
    if a != ZERO {
      InverseContract(a);
      MulComm(a, Inverse(a));
      MulAssoc(Inverse(a), a, b);
      MulZero(b);
      MulZero(Inverse(a));
    }
  }
}
