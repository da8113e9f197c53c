/** ML-DSA's arithmetic layer as the code runs it: 32-bit Montgomery reduction, the computed
    table of constants, and the two in-place transforms, with every value inside int32. */
module MlDsaArith {
  import opened ModArith
  import opened MlDsaModulus
  import opened NttTree
  import opened NegacyclicRing
  import opened ZetaTree
  import opened NttLoop

  const QINV: int := 58728449
  const R: int := 0x1_0000_0000
  /** 2^-32 mod q. */
  const RINV: int := 8265825
  const ROOT: int := 1753

  type int32 = x: int | -0x8000_0000 <= x < 0x8000_0000

  /** Narrowing to 32 bits keeps the value mod 2^32. */
  function ToInt32(x: int): (r: int32)
    ensures Cong(r, x, R)
  {
    var k := (x + 0x8000_0000) / R;
    var r := (x + 0x8000_0000) % R - 0x8000_0000;
    assert r - x == (-k) * R;
    CongIntro(r, x, R, -k);
    r
  }

  /** a * 2^-32 mod q. */
  function MontgomeryReduce(a: int): int {
    var t := ToInt32(ToInt32(a) * QINV);
    (a - t * Q) / R
  }

  /** The subtracted multiple of q clears the low 32 bits. */
  lemma MontgomeryExact(a: int)
    ensures Cong(a - ToInt32(ToInt32(a) * QINV) * Q, 0, R)
  {
    var s := ToInt32(a);
    var t := ToInt32(s * QINV);
    CongMul(t, s * QINV, Q, Q, R) by { CongRefl(Q, R); }
    assert s * QINV * Q == s * (QINV * Q);
    CongIntro(QINV * Q, 1, R, (QINV * Q - 1) / R);
    CongScale(s, QINV * Q, 1, R);
    CongTrans(t * Q, s * (QINV * Q), s, R);
    CongTrans(t * Q, s, a, R);
    CongRefl(a, R);
    CongSym(t * Q, a, R);
    CongSub(a, a, t * Q, a, R) by { CongSym(a, t * Q, R); }
  }

  lemma MontgomeryFacts(a: int)
    ensures var r := MontgomeryReduce(a);
      r * R == a - ToInt32(ToInt32(a) * QINV) * Q && Cong(r, a * RINV, Q)
  {
    var t := ToInt32(ToInt32(a) * QINV);
    MontgomeryExact(a);
    var k := CongElim(a - t * Q, 0, R);
    DivModUnique(a - t * Q, R, k, 0);
    var r := MontgomeryReduce(a);
    assert r == k;
    assert r * R * RINV == a * RINV - (t * RINV) * Q;
    CongIntro(a * RINV, r * R * RINV, Q, t * RINV);
    assert r * R * RINV == r * (R * RINV);
    CongIntro(R * RINV, 1, Q, (R * RINV - 1) / Q);
    CongScale(r, R * RINV, 1, Q);
    CongTrans(a * RINV, r * (R * RINV), r, Q);
    CongSym(a * RINV, r, Q);
  }

  /** The result's size: half of q plus the operand's share of 2^32. */
  lemma MontgomeryBound(a: int, b: int)
    requires -b * R <= a <= b * R
    ensures -b - Q / 2 - 1 <= MontgomeryReduce(a) <= b + Q / 2 + 1
  {
    MontgomeryFacts(a);
  }

  /** On the documented range |a| <= 2^31 q the result lies strictly inside (-q, q) except at
      the one operand a = 2^31 q, where it is q itself. */
  lemma MontgomeryContract(a: int)
    requires -0x8000_0000 * Q <= a <= 0x8000_0000 * Q
    ensures var r := MontgomeryReduce(a);
      Cong(r, a * RINV, Q) && -Q < r <= Q && (r < Q <==> a != 0x8000_0000 * Q)
  {
    hide MontgomeryReduce, Cong, ToInt32;
    MontgomeryFacts(a);
    MontgomerySize(a, MontgomeryReduce(a), ToInt32(ToInt32(a) * QINV));
    if a == 0x8000_0000 * Q { MontgomeryAtTop(a); }
  }

  lemma MontgomerySize(a: int, r: int, t: int)
    requires r * R == a - t * Q && -0x8000_0000 <= t < 0x8000_0000 && -0x8000_0000 * Q <= a <= 0x8000_0000 * Q
    ensures -Q < r <= Q && (r == Q ==> a == 0x8000_0000 * Q)
  {
  }

  lemma MontgomeryAtTop(a: int)
    requires a == 0x8000_0000 * Q
    ensures MontgomeryReduce(a) == Q
  {
    hide Cong, ToInt32;
    var s := ToInt32(a);
    var t := ToInt32(s * QINV);
    CongRefl(QINV, R);
    CongMul(s, a, QINV, QINV, R);
    CongIntro(Q * QINV, 1, R, (Q * QINV - 1) / R);
    CongScale(0x8000_0000, Q * QINV, 1, R);
    CongTrans(t, s * QINV, a * QINV, R);
    CongTrans(t, a * QINV, 0x8000_0000, R);
    CongIntro(0x8000_0000, -0x8000_0000, R, 1);
    CongTrans(t, 0x8000_0000, -0x8000_0000, R);
    CongUnique(t, -0x8000_0000, R);
    DivModUnique(a - t * Q, R, Q, 0);
  }

  function Reduce32(a: int): int {
    var t := (a + 4194304) / 8388608;
    a - t * Q
  }

  /** On the documented range a <= 2^31 - 2^22 - 1 the result is congruent and |r| <= 6283008,
      except at the one operand a = -2143289344, where it is -6283009. */
  lemma Reduce32Contract(a: int)
    requires -0x8000_0000 <= a <= 0x8000_0000 - 4194304 - 1
    ensures var r := Reduce32(a);
      Cong(r, a, Q) && -6283009 <= r <= 6283008 && (-6283008 <= r <==> a != -2143289344)
  {
    var t := (a + 4194304) / 8388608;
    CongIntro(Reduce32(a), a, Q, -t);
  }

  /** The one operand of the documented range whose remainder is a step too low. */
  lemma Reduce32AtBottom(a: int)
    requires a == -2143289344
    ensures -0x8000_0000 <= a && Reduce32(a) == -6283009
  {
  }

  function Caddq(a: int): int { a + (if a < 0 then Q else 0) }

  lemma CaddqContract(a: int)
    requires -Q < a < Q
    ensures 0 <= Caddq(a) < Q && Caddq(a) == a % Q
  {
    CongIntro(Caddq(a), a, Q, if a < 0 then 1 else 0);
    CongCanon(Caddq(a), a, Q);
  }

  // ------------------------------------------------------------ the constants

  function Z(): nat -> int { Zeta(ROOT, 128) }
  function ZI(): nat -> int { ZetaInv(ROOT, 128) }

  lemma RootHalfTurn()
    ensures HalfTurn(ROOT, 128, Q)
  {
    hide Power;
    PowerOne(ROOT);
    CongRefl(ROOT, Q);
    PowerSquare(ROOT, 1, 1753, 3073009, Q);
    PowerSquare(ROOT, 2, 3073009, 3602218, Q);
    PowerSquare(ROOT, 4, 3602218, 5010068, Q);
    PowerSquare(ROOT, 8, 5010068, 7778734, Q);
    PowerSquare(ROOT, 16, 7778734, 5178923, Q);
    PowerSquare(ROOT, 32, 5178923, 3765607, Q);
    PowerSquare(ROOT, 64, 3765607, 4808194, Q);
    PowerSquare(ROOT, 128, 4808194, -1, Q);
  }

  lemma TreeFacts()
    ensures Reciprocal(Z(), ZI(), Q) && Compatible(8, 1, -1, Z(), Q)
  {
    hide Power;
    RootHalfTurn();
    ZetaReciprocal(ROOT, 128, Q);
    Pow2Values();
    assert Pow2(7) == 128;
    ZetaCompatible(ROOT, 128, 8, 1, -1, Q);
  }

  /** The code's table: centred, in Montgomery form, entry 0 unused. */
  ghost predicate ZetaTable(z: seq<int>) {
    |z| == 256 && z[0] == 0
    && forall k | 1 <= k < 256 :: -Q / 2 <= z[k] <= Q / 2 && Cong(z[k], R * Z()(k), Q)
  }

  /** 2^32 mod q by doubling. */
  method MontFactor() returns (mont: int)
    ensures 0 <= mont < Q && Cong(mont, R, Q)
  {
    hide Cong;
    mont := 1;
    CongRefl(1, Q);
    for i := 0 to 32
      invariant 0 <= mont < Q && Cong(mont, Pow2(i), Q)
    {
      hide Pow2;
      CongScale(2, mont, Pow2(i), Q);
      CongMod(mont * 2, Q);
      CongTrans((mont * 2) % Q, 2 * mont, 2 * Pow2(i), Q);
      Pow2Double(i + 1);
      mont := (mont * 2) % Q;
    }
    Pow2Is32();
  }

  method RootPowers() returns (pow: seq<int>)
    ensures |pow| == 256 && forall k | 0 <= k < 256 :: Cong(pow[k], Power(ROOT, k), Q)
  {
    hide Power, Cong;
    pow := [1];
    PowerZero(ROOT);
    for i := 1 to 256
      invariant |pow| == i
      invariant forall k | 0 <= k < i :: Cong(pow[k], Power(ROOT, k), Q)
    {
      PowerNext(pow[i - 1], i);
      pow := pow + [(pow[i - 1] * ROOT) % Q];
    }
  }

  /** The table is computed, not transcribed: powers of the root, bit-reversed. */
  method BuildZetas() returns (z: seq<int>)
    ensures ZetaTable(z)
  {
    hide Power, Cong, Pow2, Brv, Z;
    var mont := MontFactor();
    var pow := RootPowers();
    z := [];
    for i := 0 to 256
      invariant |z| == i
      invariant forall k | 1 <= k < i :: -Q / 2 <= z[k] <= Q / 2 && Cong(z[k], R * Z()(k), Q)
    {
      var r := BitReverse(i);
      var v := (pow[r] * mont) % Q;
      if v > Q / 2 { v := v - Q; }
      if i > 0 { TableEntry(i, pow[r], mont, v); }
      z := z + [v];
    }
    z := z[0 := 0];
  }

  lemma PowerZero(x: int)
    ensures Power(x, 0) == 1 && Cong(1, Power(x, 0), Q)
  {
    CongRefl(1, Q);
  }

  lemma PowerNext(p: int, i: nat)
    requires 0 < i && Cong(p, Power(ROOT, i - 1), Q)
    ensures Cong((p * ROOT) % Q, Power(ROOT, i), Q)
  {
    CongScale(ROOT, p, Power(ROOT, i - 1), Q);
    CongMod(p * ROOT, Q);
    CongTrans((p * ROOT) % Q, ROOT * p, ROOT * Power(ROOT, i - 1), Q);
  }

  lemma TableEntry(i: nat, p: int, mont: int, v: int)
    requires 0 < i < 256 && Cong(p, Power(ROOT, Brv(i, 8)), Q) && Cong(mont, R, Q)
    requires v == (p * mont) % Q || v == (p * mont) % Q - Q
    ensures Cong(v, R * Z()(i), Q)
  {
    hide Power, Cong, Exp, Brv;
    ExpIsBrv8(i);
    var e := Power(ROOT, Brv(i, 8));
    CongMul(p, e, mont, R, Q);
    CongMod(p * mont, Q);
    CongTrans((p * mont) % Q, p * mont, e * R, Q);
    CongIntro((p * mont) % Q - Q, (p * mont) % Q, Q, -1);
    CongTrans((p * mont) % Q - Q, (p * mont) % Q, e * R, Q);
  }

  lemma ExpIsBrv8(i: nat)
    requires 0 < i < 256
    ensures Exp(i, 128) == Brv(i, 8)
  {
    hide Exp, Brv;
    Pow2Values();
    assert Pow2(7) == 128;
    ExpIsBrv(i, 8);
  }

  lemma Pow2Is32()
    ensures Pow2(32) == R
  {
    Pow2Values();
    Pow2Add(8, 24);
  }

  /** r |= 1 << (7 - b) for every set bit b of i. */
  method BitReverse(i: nat) returns (r: nat)
    requires i < 256
    ensures r == Brv(i, 8) && r < 256
  {
    hide Pow2;
    BrvBound(i, 8);
    Pow2Values();
    r := 0;
    var rest := i;
    var b := 0;
    while b < 8
      invariant 0 <= b <= 8
      invariant r + Brv(rest, 8 - b) == Brv(i, 8)
    {
      hide Brv;
      BrvUnfold(rest, 8 - b);
      if rest % 2 == 1 { r := r + Pow2(7 - b); }
      rest := rest / 2;
      b := b + 1;
    }
  }
}
