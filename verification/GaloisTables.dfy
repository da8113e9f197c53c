/** The exponential and logarithm tables of GF(2^8), and why they cover it: x generates every
    nonzero element. */
module GaloisTables {
  import opened ModArith
  import opened Bits
  import opened GaloisField

  /** The element as the byte its bits spell. */
  function Code(a: Gf): byte { BitsByte(a.bits) }

  lemma CodeInjective(a: Gf, b: Gf)
    requires Code(a) == Code(b)
    ensures a == b
  {
    hide ToNat, OfNat;
    ToNatOfNat(a.bits);
    ToNatOfNat(b.bits);
  }

  // ------------------------------------------------------------ the order of x

  lemma XIsUnit()
    ensures X != ZERO
  {
    assert GBit(X, 1) != GBit(ZERO, 1);
  }

  lemma PowSquare(n: nat, a: Gf, b: Gf)
    requires Pow(X, n) == a && forall i: nat | i < 8 :: SquaredBit(a.bits, i) == GBit(b, i)
    ensures Pow(X, 2 * n) == b
  {
    hide Mul, SquaredBit, GBit;
    SquareGives(a, b);
    PowAdd(X, n, n);
  }

  lemma PowNext(n: nat, a: Gf)
    requires Pow(X, n) == a
    ensures Pow(X, n + 1) == TimesX(a)
  {
    hide Mul;
    TimesXIsMul(a);
  }

  /** The power 2n + 1 out of the power n. */
  lemma PowOdd(n: nat, a: Gf, s: Gf, b: Gf)
    requires Pow(X, n) == a && forall i: nat | i < 8 :: SquaredBit(a.bits, i) == GBit(s, i)
    requires forall i: nat | i < 8 :: GBit(TimesX(s), i) == GBit(b, i)
    ensures Pow(X, 2 * n + 1) == b
  {
    hide SquaredBit, GBit, Pow;
    PowSquare(n, a, s);
    PowNext(2 * n, s);
    SameElement(TimesX(s), b);
  }

  lemma OrderParts()
    ensures Pow(X, 15) != ONE && Pow(X, 51) != ONE && Pow(X, 85) != ONE
  {
    Power15();
    Power51();
    Power85();
  }

  lemma Power15()
    ensures Pow(X, 15) != ONE
  {
    hide Pow;
    PowOne(X);
    var a3 := Gf([false, false, false, true, false, false, false, false]);
    PowOdd(1, X, Gf([false, false, true, false, false, false, false, false]), a3);
    var a7 := Gf([false, false, false, false, false, false, false, true]);
    PowOdd(3, a3, Gf([false, false, false, false, false, false, true, false]), a7);
    var a15 := Gf([false, true, true, false, false, true, false, false]);
    PowOdd(7, a7, Gf([true, true, false, false, true, false, false, false]), a15);
    assert GBit(a15, 0) != GBit(ONE, 0);
  }

  lemma Power12()
    ensures Pow(X, 12) == Gf([true, false, true, true, false, false, true, true])
  {
    hide Pow;
    PowOne(X);
    var a3 := Gf([false, false, false, true, false, false, false, false]);
    PowOdd(1, X, Gf([false, false, true, false, false, false, false, false]), a3);
    var a6 := Gf([false, false, false, false, false, false, true, false]);
    PowSquare(3, a3, a6);
    var a12 := Gf([true, false, true, true, false, false, true, true]);
    PowSquare(6, a6, a12);
  }

  lemma Power51()
    ensures Pow(X, 51) != ONE
  {
    hide Pow;
    Power12();
    var a12 := Gf([true, false, true, true, false, false, true, true]);
    var a25 := Gf([true, true, false, false, false, false, false, false]);
    PowOdd(12, a12, Gf([true, true, true, true, false, false, false, true]), a25);
    var a51 := Gf([false, true, false, true, false, false, false, false]);
    PowOdd(25, a25, Gf([true, false, true, false, false, false, false, false]), a51);
    assert GBit(a51, 0) != GBit(ONE, 0);
  }

  lemma Power10()
    ensures Pow(X, 10) == Gf([false, false, true, false, true, true, true, false])
  {
    hide Pow;
    PowOne(X);
    var a2 := Gf([false, false, true, false, false, false, false, false]);
    PowSquare(1, X, a2);
    var a5 := Gf([false, false, false, false, false, true, false, false]);
    PowOdd(2, a2, Gf([false, false, false, false, true, false, false, false]), a5);
    var a10 := Gf([false, false, true, false, true, true, true, false]);
    PowSquare(5, a5, a10);
  }

  lemma Power85()
    ensures Pow(X, 85) != ONE
  {
    hide Pow;
    Power10();
    var a10 := Gf([false, false, true, false, true, true, true, false]);
    var a21 := Gf([true, false, true, false, true, true, true, false]);
    PowOdd(10, a10, Gf([false, false, true, false, true, true, false, true]), a21);
    var a42 := Gf([true, false, true, false, true, true, false, true]);
    PowSquare(21, a21, a42);
    var a85 := Gf([false, true, true, false, true, false, true, true]);
    PowOdd(42, a42, Gf([true, true, false, true, false, true, true, false]), a85);
    assert GBit(a85, 0) != GBit(ONE, 0);
  }

  lemma {:induction false} OnePower(n: nat)
    ensures Pow(ONE, n) == ONE
  {
    hide Mul;
    if n > 0 {
      OnePower(n - 1);
      MulZero(ONE);
    }
  }

  /** A multiple of a period is one. */
  lemma PeriodMultiple(d: nat, e: nat, n: nat)
    requires Pow(X, d) == ONE && n == d * e
    ensures Pow(X, n) == ONE
  {
    hide Mul, Pow;
    PowMul(X, d, e, n);
    OnePower(e);
  }

  /** The remainder of two periods is one. */
  lemma PeriodRemainder(a: nat, b: nat)
    requires 0 < b && Pow(X, a) == ONE && Pow(X, b) == ONE
    ensures Pow(X, a % b) == ONE
  {
    hide Mul, Pow;
    var q, r := a / b, a % b;
    assert a == b * q + r && 0 <= q;
    PeriodMultiple(b, q, b * q);
    PowAdd(X, b * q, r);
    MulZero(Pow(X, r));
  }

  /** Euclid's algorithm on periods: their greatest common divisor. */
  lemma {:induction false} CommonPeriod(a: nat, b: nat) returns (d: nat, e: nat, h: nat)
    requires 0 < b && Pow(X, a) == ONE && Pow(X, b) == ONE
    ensures 0 < d <= b && Pow(X, d) == ONE && b == d * e && a == d * h
    decreases b
  {
    hide Mul, Pow;
    var q, r := a / b, a % b;
    assert a == b * q + r && 0 <= q;
    if r == 0 {
      d, e, h := b, 1, q;
    } else {
      PeriodRemainder(a, b);
      var k, l;
      d, k, l := CommonPeriod(b, r);
      // r = d k, b = d l
      assert a == d * (l * q + k) by { assert b * q == (d * l) * q == d * (l * q); }
      e, h := l, l * q + k;
    }
  }

  /** A proper divisor of 255 = 3 . 5 . 17 divides 85, 51 or 15. */
  lemma ProperDivisor(d: nat, h: nat)
    requires 255 == d * h && 0 < d < 255
    ensures h % 3 == 0 || h % 5 == 0 || h % 17 == 0
  {
    if h <= 15 {
      SmallFactor(h, d);
    } else {
      assert d <= 15 by { if d >= 16 { MulMono(16, d, h); } }
      SmallFactor(d, h);
    }
  }

  lemma SmallFactor(s: nat, t: nat)
    requires s * t == 255 && s <= 15
    ensures s in {1, 3, 5, 15} && t in {255, 85, 51, 17}
  {
    if s == 0 { } else if s == 1 { } else if s == 2 { } else if s == 3 { } else if s == 4 { } else if s == 5 { }
    else if s == 6 { } else if s == 7 { } else if s == 8 { } else if s == 9 { } else if s == 10 { } else if s == 11 { }
    else if s == 12 { } else if s == 13 { } else if s == 14 { } else { }
  }

  /** x has order 255. */
  lemma NoShortPeriod(k: nat)
    requires 0 < k < 255
    ensures Pow(X, k) != ONE
  {
    hide Mul, Pow;
    if Pow(X, k) == ONE {
      XIsUnit();
      UnitPower(X);
      var d, e, h := CommonPeriod(255, k);
      ProperDivisor(d, h);
      OrderParts();
      if h % 3 == 0 {
        PeriodPart(d, h, 3, 85);
      } else if h % 5 == 0 {
        PeriodPart(d, h, 5, 51);
      } else {
        PeriodPart(d, h, 17, 15);
      }
    }
  }

  lemma PeriodPart(d: nat, h: nat, p: nat, n: nat)
    requires Pow(X, d) == ONE && 0 < p && h % p == 0 && d * h == p * n
    ensures Pow(X, n) == ONE
  {
    hide Pow;
    var t := h / p;
    assert h == p * t;
    assert p * (d * t) == p * n by { assert d * (p * t) == p * (d * t); }
    assert d * t == n by { if d * t < n { MulMono(d * t + 1, n, p); } else if d * t > n { MulMono(n + 1, d * t, p); } }
    PeriodMultiple(d, t, n);
  }

  lemma {:induction false} PowNonzero(n: nat)
    ensures Pow(X, n) != ZERO
  {
    hide Mul;
    XIsUnit();
    if n == 0 {
      assert GBit(ONE, 0) != GBit(ZERO, 0);
    } else {
      PowNonzero(n - 1);
      if Pow(X, n) == ZERO { Cancel(X, Pow(X, n - 1)); }
    }
  }

  /** Different exponents below 255, different powers. */
  lemma PowersDiffer(i: nat, j: nat)
    requires i < j < 255
    ensures Pow(X, i) != Pow(X, j)
  {
    hide Mul, Pow, Inverse;
    if Pow(X, i) == Pow(X, j) {
      var p := Pow(X, i);
      PowAdd(X, j - i, i);
      PowNonzero(i);
      NoShortPeriod(j - i);
      var q := Pow(X, j - i);
      // q p = p
      InverseContract(p);
      MulAssoc(q, p, Inverse(p));
      MulZero(q);
    }
  }

  // ------------------------------------------------------------ x generates the field

  /** A set of numbers from 1 to n has at most n of them, and with n of them has them all. */
  lemma {:induction false} SizeBound(s: set<int>, n: nat)
    requires forall c :: c in s ==> 1 <= c <= n
    ensures |s| <= n
    decreases n
  {
    if n == 0 {
      assert s == {} by { assert forall c: int :: c !in s; }
    } else {
      SizeBound(s - {n}, n - 1);
    }
  }

  lemma {:induction false} AllPresent(s: set<int>, n: nat, c: int)
    requires forall e :: e in s ==> 1 <= e <= n
    requires |s| == n && 1 <= c <= n
    ensures c in s
    decreases n
  {
    if n !in s {
      SizeBound(s, n - 1);
    } else if c < n {
      AllPresent(s - {n}, n - 1, c);
    }
  }

  /** The codes of the first n powers. */
  function PowerCodes(n: nat): (s: set<int>) {
    if n == 0 then {} else PowerCodes(n - 1) + {Code(Pow(X, n - 1))}
  }

  lemma {:induction false} InPowerCodes(n: nat, c: int) returns (i: nat)
    requires c in PowerCodes(n)
    ensures i < n && Code(Pow(X, i)) == c
  {
    hide Pow, Code;
    if c == Code(Pow(X, n - 1)) { i := n - 1; } else { i := InPowerCodes(n - 1, c); }
  }

  lemma {:induction false} PowerCodesSize(n: nat)
    requires n <= 255
    ensures |PowerCodes(n)| == n && forall c :: c in PowerCodes(n) ==> 1 <= c <= 255
  {
    hide Pow, Code;
    if n > 0 {
      PowerCodesSize(n - 1);
      CodeNonzero(n - 1);
      NewCode(n - 1);
      var s, c := PowerCodes(n - 1), Code(Pow(X, n - 1));
      assert |s + {c}| == |s| + 1;
    }
  }

  lemma NewCode(n: nat)
    requires n < 255
    ensures Code(Pow(X, n)) !in PowerCodes(n)
  {
    hide Pow, Code, PowerCodes;
    if Code(Pow(X, n)) in PowerCodes(n) {
      var i := InPowerCodes(n, Code(Pow(X, n)));
      CodeInjective(Pow(X, i), Pow(X, n));
      PowersDiffer(i, n);
    }
  }

  lemma CodeNonzero(i: nat)
    ensures 1 <= Code(Pow(X, i)) <= 255
  {
    hide Pow, Code;
    PowNonzero(i);
    CodeOfZero();
    if Code(Pow(X, i)) == 0 { CodeInjective(Pow(X, i), ZERO); }
  }

  lemma CodeOfZero()
    ensures Code(ZERO) == 0
  {
    ZerosToNat(8);
  }

  lemma {:induction false} ZerosToNat(n: nat)
    ensures ToNat(Zeros(n)) == 0
  {
    if n > 0 {
      ZerosToNat(n - 1);
      assert Zeros(n)[1..] == Zeros(n - 1);
    }
  }

  /** Every nonzero element is a power of x. */
  lemma Generator(a: Gf) returns (k: nat)
    requires a != ZERO
    ensures k < 255 && Pow(X, k) == a
  {
    hide Pow, Code;
    PowerCodesSize(255);
    hide PowerCodes;
    CodeOfZero();
    if Code(a) == 0 { CodeInjective(a, ZERO); }
    AllPresent(PowerCodes(255), 255, Code(a));
    k := InPowerCodes(255, Code(a));
    CodeInjective(Pow(X, k), a);
  }

  // ------------------------------------------------------------ the tables

  /** exp holds the powers of x, two past the period; log undoes them. */
  ghost predicate Tables(exp: seq<Gf>, log: seq<nat>) {
    |exp| == 258 && |log| == 256
    && (forall i | 0 <= i < 258 :: exp[i] == Pow(X, i))
    && forall i | 0 <= i < 255 :: log[Code(Pow(X, i))] == i
  }

  lemma PastPeriod()
    ensures Pow(X, 255) == ONE && Pow(X, 256) == X && Pow(X, 257) == TimesX(X)
  {
    hide Mul, Pow;
    XIsUnit();
    UnitPower(X);
    PowNext(255, ONE);
    PowNext(256, X);
  }

  method MakeTables() returns (exp: seq<Gf>, log: seq<nat>)
    ensures Tables(exp, log)
  {
    hide Mul, Pow, Code;
    var e := new Gf[258](_ => ZERO);
    var l := new nat[256](_ => 0);
    var elt := ONE;
    PowOne(X);
    for i := 0 to 255
      invariant elt == Pow(X, i)
      invariant forall k | 0 <= k < i :: e[k] == Pow(X, k) && l[Code(Pow(X, k))] == k
    {
      e[i] := elt;
      l[Code(elt)] := i;
      forall k | 0 <= k < i ensures Code(Pow(X, k)) != Code(elt) {
        PowersDiffer(k, i);
        if Code(Pow(X, k)) == Code(elt) { CodeInjective(Pow(X, k), elt); }
      }
      PowNext(i, elt);
      elt := TimesX(elt);
    }
    PastPeriod();
    e[255], e[256], e[257] := ONE, X, TimesX(X);
    l[0] := 0;
    CodeKeep();
    exp, log := e[..], l[..];
  }

  /** The entry for 0 is nobody's. */
  lemma CodeKeep()
    ensures forall k | 0 <= k < 255 :: Code(Pow(X, k)) != 0
  {
    hide Pow, Code;
    forall k | 0 <= k < 255 ensures Code(Pow(X, k)) != 0 { CodeNonzero(k); }
  }

  lemma TableEntries(exp: seq<Gf>, log: seq<nat>, k: nat, j: nat)
    requires Tables(exp, log) && k < 255 && j < 255
    ensures |exp| == 258 && |log| == 256 && log[Code(Pow(X, k))] == k && exp[j] == Pow(X, j)
  {
    hide Pow, Code;
  }

  /** Multiplication by a power of x through the tables. */
  lemma TableProduct(exp: seq<Gf>, log: seq<nat>, a: Gf, i: nat)
    requires Tables(exp, log) && a != ZERO
    ensures var l := log[Code(a)];
      l < 255 && exp[(l + i) % 255] == Mul(Pow(X, i), a)
  {
    hide Mul, Pow, Code, Tables;
    var k := Generator(a);
    TableEntries(exp, log, k, (k + i) % 255);
    PowAdd(X, i, k);
    PeriodReduce(k + i);
  }

  lemma PeriodReduce(n: nat)
    ensures 0 <= n % 255 < 255 && Pow(X, n % 255) == Pow(X, n)
  {
    hide Mul, Pow;
    var q, r := n / 255, n % 255;
    XIsUnit();
    UnitPower(X);
    PeriodMultiple(255, q, 255 * q);
    PowAdd(X, 255 * q, r);
    MulZero(Pow(X, r));
  }

  // ------------------------------------------------------------ the modulus

  /** The powers 1, x, ..., x^7 are the unit vectors, and x^8 = x^4 + x^3 + x^2 + 1: with the field laws, the product is
      the one modulo x^8 + x^4 + x^3 + x^2 + 1. */
  lemma Modulus(n: nat, i: nat)
    requires n <= 8 && i < 8
    ensures GBit(Pow(X, n), i) == if n < 8 then i == n else i == 0 || i == 2 || i == 3 || i == 4
  {
    hide Pow, GBit, Mul, TimesX;
    if n < 8 {
      UnitVector(n, i);
    } else {
      forall k: nat | k < 8 ensures GBit(Pow(X, 7), k) == (k == 7) { UnitVector(7, k); }
      PowNext(7, Pow(X, 7));
      Carried(Pow(X, 7), i);
    }
  }

  lemma Carried(a: Gf, i: nat)
    requires i < 8 && forall k: nat | k < 8 :: GBit(a, k) == (k == 7)
    ensures GBit(TimesX(a), i) == (i == 0 || i == 2 || i == 3 || i == 4)
  {
    assert GBit(a, 7) && (i > 0 ==> GBit(a, i - 1) == (i - 1 == 7));
  }

  lemma {:induction false} UnitVector(n: nat, i: nat)
    requires n < 8 && i < 8
    ensures GBit(Pow(X, n), i) == (i == n)
    decreases n
  {
    hide Mul;
    if n == 0 {
      assert Pow(X, 0) == ONE;
    } else {
      PowNext(n - 1, Pow(X, n - 1));
      hide Pow;
      UnitVector(n - 1, 7);
      if i > 0 { UnitVector(n - 1, i - 1); }
    }
  }
}
