/** The modulus of ML-DSA. */
module MlDsaModulus {
  const Q: int := 8380417
}

/** ML-DSA rounding: the division-free decomposition, hints, Power2Round and centred
    residues, for both values of gamma2 = (q - 1) / den, den = 88 or 32. */
module MlDsaRounding {
  import opened ModArith
  import opened MlDsaModulus

  /** gamma2's divisor: 88 in ML-DSA-44, 32 in ML-DSA-65 and ML-DSA-87. */
  type Den = d: nat | d == 88 || d == 32 witness 88

  function Gamma2(den: Den): (g: int)
    ensures g == if den == 88 then 95232 else 261888
  {
    (Q - 1) / den
  }

  /** HighBits take den / 2 values. */
  function Steps(den: Den): int { den / 2 }

  /** a = a1 * 2 gamma2 + a0, by multiply and shift. */
  function Decompose(a: int, den: Den): (r: (int, int)) {
    var t := (a + 127) / 128;
    var a1 :=
      if den == 88 then
        var u := (t * 11275 + 8388608) / 16777216;
        if 43 - u < 0 then 0 else u
      else
        ((t * 1025 + 2097152) / 4194304) % 16;
    var a0 := a - a1 * 2 * Gamma2(den);
    (a1, if (Q - 1) / 2 - a0 < 0 then a0 - Q else a0)
  }

  /** r mod+- m: the representative in (-m/2, m/2]. */
  function CentredMod(r: int, m: int): int
    requires 0 < m
  {
    if r % m > m / 2 then r % m - m else r % m
  }

  /** Decompose as section 7.4 of FIPS 204 writes it. */
  function FipsDecompose(r: int, den: Den): (int, int) {
    var rp := r % Q;
    var r0 := CentredMod(rp, 2 * Gamma2(den));
    if rp - r0 == Q - 1 then (0, r0 - 1) else ((rp - r0) / (2 * Gamma2(den)), r0)
  }

  /** The step c with 2 gamma2 c - gamma2 < a <= 2 gamma2 c + gamma2. */
  function NearestStep(a: int, den: Den): (c: int)
    ensures 0 <= a < Q ==> 0 <= c <= Steps(den)
    ensures 0 <= a < Q ==> 2 * Gamma2(den) * c - Gamma2(den) < a <= 2 * Gamma2(den) * c + Gamma2(den)
  {
    if den == 88 then (a + 95231) / 190464 else (a + 261887) / 523776
  }

  lemma StepUnique(a: int, den: Den, c: int)
    requires 0 <= a < Q && 2 * Gamma2(den) * c - Gamma2(den) < a <= 2 * Gamma2(den) * c + Gamma2(den)
    ensures c == NearestStep(a, den)
  {
    if den == 88 {
      assert 190464 * c - 95232 < a <= 190464 * c + 95232;
    } else {
      assert 523776 * c - 261888 < a <= 523776 * c + 261888;
    }
  }

  /** What the two multiply-and-shift constants compute. */
  lemma DecomposeStep(a: int, den: Den)
    requires 0 <= a < Q
    ensures var c := NearestStep(a, den);
      Decompose(a, den) == if c == Steps(den) then (0, a - Q) else (c, a - c * 2 * Gamma2(den))
  {
    var c := NearestStep(a, den);
    hide NearestStep, Decompose;
    if den == 88 { Decompose88(a, c); } else { Decompose32(a, c); }
  }

  lemma Decompose88(a: int, c: int)
    requires 0 <= a < Q && 190464 * c - 95232 < a <= 190464 * c + 95232 && 0 <= c <= 44
    ensures Decompose(a, 88) == if c == 44 then (0, a - Q) else (c, a - c * 2 * 95232)
  {
    Step88(a, (a + 127) / 128, c);
  }

  lemma Decompose32(a: int, c: int)
    requires 0 <= a < Q && 523776 * c - 261888 < a <= 523776 * c + 261888 && 0 <= c <= 16
    ensures Decompose(a, 32) == if c == 16 then (0, a - Q) else (c, a - c * 2 * 261888)
  {
    Step32(a, (a + 127) / 128, c);
    var u := ((a + 127) / 128 * 1025 + 2097152) / 4194304;
    if c == 16 { DivModUnique(u, 16, 1, 0); } else { DivModUnique(u, 16, 0, c); }
  }

  lemma Step88(a: int, t: int, c: int)
    requires 190464 * c - 95232 < a <= 190464 * c + 95232 && a <= 128 * t <= a + 127 && 0 <= c <= 44
    ensures (t * 11275 + 8388608) / 16777216 == c
  {
    assert 1488 * c - 743 <= t <= 1488 * c + 744;
    DivModUnique(t * 11275 + 8388608, 16777216, c, t * 11275 + 8388608 - c * 16777216);
  }

  lemma Step32(a: int, t: int, c: int)
    requires 523776 * c - 261888 < a <= 523776 * c + 261888 && a <= 128 * t <= a + 127 && 0 <= c <= 16
    ensures (t * 1025 + 2097152) / 4194304 == c
  {
    assert 4092 * c - 2045 <= t <= 4092 * c + 2046;
    DivModUnique(t * 1025 + 2097152, 4194304, c, t * 1025 + 2097152 - c * 4194304);
  }

  lemma FipsStep(a: int, den: Den)
    requires 0 <= a < Q
    ensures var c := NearestStep(a, den);
      FipsDecompose(a, den) == if c == Steps(den) then (0, a - Q) else (c, a - c * 2 * Gamma2(den))
  {
    var c := NearestStep(a, den);
    var g := 2 * Gamma2(den);
    DivModUnique(a, Q, 0, a);
    var r0 := a - g * c;
    assert g * c == c * g;
    if r0 >= 0 {
      DivModUnique(a, g, c, r0);
    } else {
      DivModUnique(a, g, c - 1, r0 + g);
    }
    assert CentredMod(a, g) == r0;
    DivModUnique(a - r0, g, c, 0);
    if den == 88 { assert c * 190464 == Q - 1 <==> c == 44; } else { assert c * 523776 == Q - 1 <==> c == 16; }
  }

  /** The shift constants implement section 7.4 of FIPS 204 on every canonical residue. */
  lemma DecomposeIsFips(a: int, den: Den)
    requires 0 <= a < Q
    ensures Decompose(a, den) == FipsDecompose(a, den)
  {
    DecomposeStep(a, den);
    FipsStep(a, den);
  }

  function HighBits(a: int, den: Den): int { Decompose(a, den).0 }
  function LowBits(a: int, den: Den): int { Decompose(a, den).1 }

  /** a is recovered mod q, the parts are in range, the top interval folds to 0. */
  lemma DecomposeParts(a: int, den: Den)
    requires 0 <= a < Q
    ensures var (a1, a0) := Decompose(a, den);
      0 <= a1 < Steps(den) && -Gamma2(den) <= a0 <= Gamma2(den) && Cong(a, a1 * 2 * Gamma2(den) + a0, Q)
  {
    var c := NearestStep(a, den);
    DecomposeStep(a, den);
    if c == Steps(den) {
      CongIntro(a, a - Q, Q, 1);
    } else {
      CongRefl(a, Q);
    }
  }

  // ------------------------------------------------------------ hints

  function MakeHint(a0: int, a1: int, den: Den): nat {
    if a0 > Gamma2(den) || a0 < -Gamma2(den) || (a0 == -Gamma2(den) && a1 != 0) then 1 else 0
  }

  function UseHint(a: int, hint: nat, den: Den): int {
    var (a1, a0) := Decompose(a, den);
    if hint == 0 then a1
    else if den == 88 then
      if a0 > 0 then (if a1 == 43 then 0 else a1 + 1) else (if a1 == 0 then 43 else a1 - 1)
    else
      if a0 > 0 then (a1 + 1) % 16 else (a1 - 1) % 16
  }

  /** The residue that the verifier recomputes: w1 steps plus an error v. */
  function Shifted(w1: int, v: int, den: Den): int { (2 * Gamma2(den) * w1 + v) % Q }

  lemma ShiftedStep(w1: int, v: int, den: Den)
    requires 0 <= w1 < Steps(den) && -2 * Gamma2(den) < v < 2 * Gamma2(den)
    ensures var a := Shifted(w1, v, den);
      var s := 2 * Gamma2(den) * w1 + v;
      0 <= a < Q && a == if s < 0 then s + Q else s
  {
    var s := 2 * Gamma2(den) * w1 + v;
    if den == 88 { assert s == 190464 * w1 + v; } else { assert s == 523776 * w1 + v; }
    DivModUnique(s, Q, if s < 0 then -1 else 0, if s < 0 then s + Q else s);
  }

  /** The step nearest to the recomputed residue. */
  function ShiftedTarget(w1: int, v: int, g: int, m: int): int {
    if v > g then w1 + 1
    else if w1 == 0 && v < 0 then (if v < -g then m - 1 else m)
    else if v <= -g then w1 - 1
    else w1
  }

  lemma ShiftedNearest(w1: int, v: int, den: Den)
    requires 0 <= w1 < Steps(den) && -2 * Gamma2(den) < v < 2 * Gamma2(den)
    ensures NearestStep(Shifted(w1, v, den), den) == ShiftedTarget(w1, v, Gamma2(den), Steps(den))
  {
    hide Shifted;
    var a := Shifted(w1, v, den);
    ShiftedStep(w1, v, den);
    var c := ShiftedTarget(w1, v, Gamma2(den), Steps(den));
    if den == 88 {
      assert 190464 * c - 95232 < a <= 190464 * c + 95232;
    } else {
      assert 523776 * c - 261888 < a <= 523776 * c + 261888;
    }
    StepUnique(a, den, c);
  }

  /** Where the recomputed residue lands: one step up, one step down, or in place. */
  lemma ShiftedDecompose(w1: int, v: int, den: Den)
    requires 0 <= w1 < Steps(den) && -2 * Gamma2(den) < v < 2 * Gamma2(den)
    ensures var g := Gamma2(den);
      var m := Steps(den);
      var (a1, a0) := Decompose(Shifted(w1, v, den), den);
      if v > g then a1 == (if w1 == m - 1 then 0 else w1 + 1) && a0 <= 0
      else if v < -g || (v == -g && w1 != 0) then a1 == (if w1 == 0 then m - 1 else w1 - 1) && a0 > 0
      else a1 == w1
  {
    hide Shifted, Decompose;
    ShiftedStep(w1, v, den);
    ShiftedNearest(w1, v, den);
    DecomposeStep(Shifted(w1, v, den), den);
    if den == 88 { } else { }
  }

  /** The hint bit restores w1 for every error below 2 gamma2, and is set exactly when the
      high bits moved. */
  lemma HintRecovers(w1: int, v: int, den: Den)
    requires 0 <= w1 < Steps(den) && -2 * Gamma2(den) < v < 2 * Gamma2(den)
    ensures UseHint(Shifted(w1, v, den), MakeHint(v, w1, den), den) == w1
    ensures MakeHint(v, w1, den) == 1 <==> HighBits(Shifted(w1, v, den), den) != w1
  {
    hide Decompose, Shifted;
    ShiftedDecompose(w1, v, den);
  }

  // ------------------------------------------------------------ the masked form of HighBits

  /** a + gamma2 - 1, less q - 1 when that reaches q - 1. */
  function BPrime(a: int, den: Den): (b: int)
    ensures 0 <= a < Q ==> 0 <= b < Q - 1
  {
    var b := a + Gamma2(den) - 1;
    if b >= Q - 1 then b - (Q - 1) else b
  }

  lemma BPrimeHighBits(a: int, den: Den)
    requires 0 <= a < Q
    ensures BPrime(a, den) / (2 * Gamma2(den)) == HighBits(a, den)
  {
    DecomposeStep(a, den);
    var b := BPrime(a, den);
    if den == 88 { assert b / 190464 == HighBits(a, den); } else { assert b / 523776 == HighBits(a, den); }
  }

  /** The centred residue of x. */
  function Centred(x: int): (c: int)
    ensures -(Q - 1) / 2 <= c <= (Q - 1) / 2 && Cong(c, x, Q)
  {
    CongMod(x, Q);
    var r := x % Q;
    if r > (Q - 1) / 2 then
      CongIntro(r - Q, r, Q, -1);
      CongTrans(r - Q, r, x, Q);
      r - Q
    else
      r
  }

  predicate Small(x: int, bound: int) { -bound < Centred(x) < bound }

  /** The low-bits window of the masked signer, against w1 steps. */
  function WindowLow(w1: int, beta: int, den: Den): int {
    2 * Gamma2(den) * w1 + (if w1 == 0 then beta + 1 else beta)
  }
  function WindowHigh(w1: int, beta: int, den: Den): int {
    2 * Gamma2(den) * w1 + 2 * Gamma2(den) - beta - 1
  }

  /** b' falls in the window exactly when a differs from w1 steps by less than gamma2 - beta. */
  lemma WindowIsSmall(a: int, w1: int, beta: int, den: Den)
    requires 0 <= a < Q && 0 <= w1 < Steps(den) && 0 < beta < 1000
    ensures WindowLow(w1, beta, den) <= BPrime(a, den) < WindowHigh(w1, beta, den)
      <==> Small(a - 2 * Gamma2(den) * w1, Gamma2(den) - beta)
  {
    if den == 88 {
      WindowArith(a, w1, beta, 95232, 44);
    } else {
      WindowArith(a, w1, beta, 261888, 16);
    }
  }

  lemma WindowArith(a: int, w1: int, beta: int, g: int, m: int)
    requires (g == 95232 && m == 44) || (g == 261888 && m == 16)
    requires 0 <= a < Q && 0 <= w1 < m && 0 < beta < 1000
    ensures var b := if a + g - 1 >= Q - 1 then a + g - Q else a + g - 1;
      (2 * g * w1 + (if w1 == 0 then beta + 1 else beta) <= b < 2 * g * w1 + 2 * g - beta - 1
      <==> Small(a - 2 * g * w1, g - beta))
  {
    var d := a - 2 * g * w1;
    assert 0 <= 2 * g * w1 < Q - 1;
    var r := if d < 0 then d + Q else d;
    DivModUnique(d, Q, if d < 0 then -1 else 0, r);
    if g == 95232 { WindowCases(a, w1, beta, 95232, 190464 * w1); }
    else { WindowCases(a, w1, beta, 261888, 523776 * w1); }
  }

  lemma WindowCases(a: int, w1: int, beta: int, g: int, base: int)
    requires (g == 95232 && base == 190464 * w1 <= Q - 1 - 2 * g) ||
      (g == 261888 && base == 523776 * w1 <= Q - 1 - 2 * g)
    requires 0 <= a < Q && 0 <= w1 && 0 < beta < 1000
    requires (a - base) % Q == if a - base < 0 then a - base + Q else a - base
    ensures var b := if a + g - 1 >= Q - 1 then a + g - Q else a + g - 1;
      (base + (if w1 == 0 then beta + 1 else beta) <= b < base + 2 * g - beta - 1 <==> Small(a - base, g - beta))
  {
  }

  // ------------------------------------------------------------ Power2Round

  function Power2Round(a: int): (int, int) {
    var a1 := (a + 4096 - 1) / 8192;
    (a1, a - a1 * 8192)
  }

  lemma Power2RoundParts(a: int)
    requires 0 <= a < Q
    ensures var (a1, a0) := Power2Round(a);
      0 <= a1 < 1024 && -4096 < a0 <= 4096 && a == a1 * 8192 + a0
  {
  }
}
