/** ML-KEM's scalar arithmetic: the 16-bit Montgomery and Barrett reductions, the
    division-free quotient, and the computed table of constants. */
module MlKemArith {
  import opened ModArith
  import opened NttTree
  import opened NegacyclicRing
  import opened ZetaTree

  const KQ: int := 3329
  const KQINV: int := 62209
  const KR: int := 65536
  /** 2^-16 mod q. */
  const KRINV: int := 169
  const KROOT: int := 17

  function ToInt16(x: int): (r: int16)
    ensures Cong(r, x, KR)
  {
    var k := (x + 0x8000) / KR;
    var r := (x + 0x8000) % KR - 0x8000;
    assert r - x == (-k) * KR;
    CongIntro(r, x, KR, -k);
    r
  }

  /** a * 2^-16 mod q: the low 16 bits choose the multiple of q to subtract. */
  function MontReduce16(a: int): int {
    var t := ToInt16((a % KR) * KQINV);
    (a - t * KQ) / KR
  }

  lemma MontExact16(a: int)
    ensures Cong(a - ToInt16((a % KR) * KQINV) * KQ, 0, KR)
  {
    var s := a % KR;
    var t := ToInt16(s * KQINV);
    CongRefl(KQ, KR);
    CongMul(t, s * KQINV, KQ, KQ, KR);
    assert s * KQINV * KQ == s * (KQINV * KQ);
    CongIntro(KQINV * KQ, 1, KR, (KQINV * KQ - 1) / KR);
    hide Cong;
    CongScale(s, KQINV * KQ, 1, KR);
    CongTrans(t * KQ, s * (KQINV * KQ), s, KR);
    CongMod(a, KR);
    CongTrans(t * KQ, s, a, KR);
    CongSym(t * KQ, a, KR);
    CongRefl(a, KR);
    CongSub(a, a, t * KQ, a, KR);
  }

  lemma MontFacts16(a: int)
    ensures var r := MontReduce16(a);
      r * KR == a - ToInt16((a % KR) * KQINV) * KQ && Cong(r, a * KRINV, KQ)
  {
    var t := ToInt16((a % KR) * KQINV);
    MontExact16(a);
    var k := CongElim(a - t * KQ, 0, KR);
    DivModUnique(a - t * KQ, KR, k, 0);
    var r := MontReduce16(a);
    assert r == k;
    assert r * KR * KRINV == a * KRINV - (t * KRINV) * KQ;
    CongIntro(a * KRINV, r * KR * KRINV, KQ, t * KRINV);
    assert r * KR * KRINV == r * (KR * KRINV);
    CongIntro(KR * KRINV, 1, KQ, (KR * KRINV - 1) / KQ);
    hide Cong;
    CongScale(r, KR * KRINV, 1, KQ);
    CongTrans(a * KRINV, r * (KR * KRINV), r, KQ);
    CongSym(a * KRINV, r, KQ);
  }

  /** On the documented range the result fits, strictly inside (-q, q). */
  lemma MontContract16(a: int)
    requires -0x8000 * KQ < a < 0x8000 * KQ
    ensures -KQ < MontReduce16(a) < KQ && Cong(MontReduce16(a), a * KRINV, KQ)
  {
    MontFacts16(a);
  }

  lemma MontBound16(a: int, b: int)
    requires -b * KR <= a <= b * KR
    ensures -b - KQ / 2 - 1 <= MontReduce16(a) <= b + KQ / 2 + 1
  {
    MontFacts16(a);
  }

  /** ((1 << 26) + q / 2) / q. */
  const BARRETT: int := 20159

  function Barrett16(a: int): int {
    var t := (BARRETT * a + 33554432) / 67108864;
    a - t * KQ
  }

  /** Centred for every 16-bit operand: in (-q/2, q/2]. */
  lemma BarrettContract(a: int)
    requires -0x8000 <= a < 0x8000
    ensures -1664 <= Barrett16(a) <= 1664 && Cong(Barrett16(a), a, KQ)
  {
    var t := (BARRETT * a + 33554432) / 67108864;
    assert -10 <= t <= 10;
    CongIntro(Barrett16(a), a, KQ, -t);
  }

  function DivQ(n: int): int { (n * 10321340) / 34359738368 }
  function ModQ(n: int): int { n - 3329 * DivQ(n) }

  /** The multiply-and-shift is the true quotient on the whole documented range. */
  lemma DivQContract(n: int)
    requires 0 <= n < 8388608
    ensures DivQ(n) == n / KQ && ModQ(n) == n % KQ
  {
    var a, b := n / KQ, n % KQ;
    assert n == 3329 * a + b;
    assert n * 10321340 == a * 34359738368 + (a * 2492 + b * 10321340);
    DivModUnique(n * 10321340, 34359738368, a, a * 2492 + b * 10321340);
  }

  function ToPositive(a: int): int { if a < 0 then a + KQ else a }

  /** The canonical residue of a 16-bit value. */
  lemma PositiveContract(a: int)
    requires -0x8000 <= a < 0x8000
    ensures ToPositive(Barrett16(a)) == a % KQ
  {
    BarrettContract(a);
    hide Barrett16;
    var r := ToPositive(Barrett16(a));
    CongIntro(r, Barrett16(a), KQ, if Barrett16(a) < 0 then 1 else 0);
    hide Cong;
    CongTrans(r, Barrett16(a), a, KQ);
    CongCanon(r, a, KQ);
  }

  // ------------------------------------------------------------ the constants

  function KZ(): nat -> int { Zeta(KROOT, 64) }
  function KZI(): nat -> int { ZetaInv(KROOT, 64) }

  lemma KRootHalfTurn()
    ensures HalfTurn(KROOT, 64, KQ)
  {
    hide Power;
    PowerOne(KROOT);
    CongRefl(KROOT, KQ);
    PowerSquare(KROOT, 1, 17, 289, KQ);
    PowerSquare(KROOT, 2, 289, 296, KQ);
    PowerSquare(KROOT, 4, 296, 1062, KQ);
    PowerSquare(KROOT, 8, 1062, 2642, KQ);
    PowerSquare(KROOT, 16, 2642, 2580, KQ);
    PowerSquare(KROOT, 32, 2580, 1729, KQ);
    PowerSquare(KROOT, 64, 1729, -1, KQ);
  }

  lemma KTreeFacts()
    ensures Reciprocal(KZ(), KZI(), KQ) && Compatible(7, 1, -1, KZ(), KQ)
  {
    hide Power;
    KRootHalfTurn();
    ZetaReciprocal(KROOT, 64, KQ);
    Pow2Values();
    ZetaCompatible(KROOT, 64, 7, 1, -1, KQ);
  }

  /** The code's table: centred, in Montgomery form. */
  ghost predicate KZetaTable(z: seq<int>) {
    |z| == 128 && forall k | 1 <= k < 128 :: -1664 <= z[k] <= 1664 && Cong(z[k], KR * KZ()(k), KQ)
  }

  /** The powers of the root in Montgomery form. */
  method MontPowers() returns (mont: seq<int>)
    ensures |mont| == 128 && forall k | 0 <= k < 128 :: 0 <= mont[k] < KQ && Cong(mont[k], KR * Power(KROOT, k), KQ)
  {
    hide Power, Cong;
    mont := [];
    var pow := 1;
    PowerStart();
    for i := 0 to 128
      invariant |mont| == i && 0 <= pow < KQ && Cong(pow, Power(KROOT, i), KQ)
      invariant forall k | 0 <= k < i :: 0 <= mont[k] < KQ && Cong(mont[k], KR * Power(KROOT, k), KQ)
    {
      MontEntry(pow, i);
      mont := mont + [(pow * 65536) % KQ];
      pow := (pow * KROOT) % KQ;
    }
  }

  lemma PowerStart()
    ensures Cong(1, Power(KROOT, 0), KQ)
  {
    CongRefl(1, KQ);
  }

  lemma MontEntry(pow: int, i: nat)
    requires Cong(pow, Power(KROOT, i), KQ)
    ensures 0 <= (pow * 65536) % KQ < KQ && Cong((pow * 65536) % KQ, KR * Power(KROOT, i), KQ)
    ensures 0 <= (pow * KROOT) % KQ < KQ && Cong((pow * KROOT) % KQ, Power(KROOT, i + 1), KQ)
  {
    var p, n := Power(KROOT, i), Power(KROOT, i + 1);
    assert n == KROOT * p;
    hide Power, Cong;
    CongScale(KR, pow, p, KQ);
    CongMod(pow * 65536, KQ);
    CongTrans((pow * 65536) % KQ, KR * pow, KR * p, KQ);
    CongScale(KROOT, pow, p, KQ);
    CongMod(pow * KROOT, KQ);
    CongTrans((pow * KROOT) % KQ, KROOT * pow, n, KQ);
  }

  method BuildKZetas() returns (z: seq<int>)
    ensures KZetaTable(z)
  {
    hide Power, Cong, Pow2, Brv, KZ;
    var mont := MontPowers();
    z := [];
    for i := 0 to 128
      invariant |z| == i
      invariant forall k | 1 <= k < i :: -1664 <= z[k] <= 1664 && Cong(z[k], KR * KZ()(k), KQ)
    {
      var r := Brv7(i);
      var v := mont[r];
      if v > KQ / 2 { v := v - KQ; }
      if i > 0 { KTableEntry(i, mont[r], v); }
      z := z + [v];
    }
  }

  lemma KTableEntry(i: nat, m: int, v: int)
    requires 0 < i < 128 && Cong(m, KR * Power(KROOT, Brv(i, 7)), KQ) && (v == m || v == m - KQ)
    ensures Cong(v, KR * KZ()(i), KQ)
  {
    hide Power, Exp, Brv;
    KExpIsBrv(i);
    CongIntro(m - KQ, m, KQ, -1);
    CongRefl(m, KQ);
    hide Cong;
    CongTrans(v, m, KR * Power(KROOT, Brv(i, 7)), KQ);
  }

  lemma KExpIsBrv(i: nat)
    requires 0 < i < 128
    ensures Exp(i, 64) == Brv(i, 7)
  {
    hide Exp, Brv;
    Pow2Values();
    assert Pow2(6) == 64;
    assert Pow2(7) == 128;
    ExpIsBrv(i, 7);
  }

  /** r |= ((i >> b) & 1) << (6 - b). */
  method Brv7(i: nat) returns (r: nat)
    requires i < 128
    ensures r == Brv(i, 7) && r < 128
  {
    hide Pow2;
    BrvBound(i, 7);
    Seven();
    r := 0;
    var rest: nat := i;
    var b := 0;
    while b < 7
      invariant 0 <= b <= 7
      invariant r + Brv(rest, 7 - b) == Brv(i, 7)
    {
      hide Brv;
      BrvUnfold(rest, 7 - b);
      r := r + (if rest % 2 == 1 then Pow2(6 - b) else 0);
      rest := rest / 2;
      b := b + 1;
    }
  }

  lemma Seven()
    ensures Pow2(7) == 128 && Pow2(0) == 1 && Pow2(6) == 64
  {
    Pow2Values();
    assert Pow2(7) == 128;
  }
}
