/** The Reed-Muller decoder is maximum likelihood: whatever was received, no byte's codeword differs from a block's
    copies in fewer bits than the codeword of the byte it returns. */
module ReedMullerNearest {
  import opened ModArith
  import opened Bits
  import opened ReedMuller
  import opened ReedMullerCode

  // ------------------------------------------------------------ the transform as a signed sum

  /** e[from] + e[from + 1] ... with the signs of frequency q. */
  function SignedSum(e: seq<int>, q: nat, from: nat, n: nat): int {
    if n == 0 then 0 else SignedSum(e, q, from, n - 1) + At(e, from + n - 1) * Sign(Shared(q, n - 1))
  }

  /** Bit t of an index shares bit t of the frequency. */
  lemma {:induction false} SharedTop(q: nat, k: nat, t: nat)
    requires k < Pow2(t)
    ensures Shared(q, Pow2(t) + k) == (Shared(q, k) != IndexBit(q, t))
    decreases t
  {
    if t == 0 {
      SharedStep(q, 0, 1);
      assert !Shared(q / 2, 0) && !Shared(q, 0);
    } else {
      var h, d := k / 2, k % 2;
      assert k == 2 * h + d && Pow2(t) + k == 2 * (Pow2(t - 1) + h) + d;
      SharedTop(q / 2, h, t - 1);
      HighBitsInner(q, t);
      SharedStep(q, h, d);
      SharedStep(q, Pow2(t - 1) + h, d);
    }
  }

  lemma {:induction false} SumSplits(e: seq<int>, q: nat, from: nat, t: nat, n: nat)
    requires n <= Pow2(t)
    ensures SignedSum(e, q, from, Pow2(t) + n)
      == SignedSum(e, q, from, Pow2(t)) + Sign(IndexBit(q, t)) * SignedSum(e, q, from + Pow2(t), n)
    decreases n
  {
    hide Shared, IndexBit, Pow2;
    if n > 0 {
      SumSplits(e, q, from, t, n - 1);
      SharedTop(q, n - 1, t);
      var x, a, b := At(e, from + Pow2(t) + n - 1), Sign(IndexBit(q, t)), Sign(Shared(q, n - 1));
      assert Pow2(t) + n - 1 == Pow2(t) + (n - 1);
      assert Sign(Shared(q, Pow2(t) + (n - 1))) == a * b;
      NextTerm(SignedSum(e, q, from + Pow2(t), n - 1), x, a, b);
    }
  }

  lemma NextTerm(s: int, x: int, a: int, b: int)
    ensures a * (s + x * b) == a * s + x * (a * b)
  {
    assert a * (x * b) == x * (a * b);
  }

  lemma {:induction false} PartIsSum(e: seq<int>, t: nat, q: nat, r: nat, from: nat)
    requires from == r * Pow2(t)
    ensures Part(e, t, q, r) == SignedSum(e, q, from, Pow2(t))
    decreases t
  {
    if t == 0 {
      OneSigned(e, q, r);
    } else {
      Pow2Double(t);
      PartNext(e, t, q, r);
      hide SignedSum, Shared, Part, IndexBit, Pow2, Sign;
      var h := Pow2(t - 1);
      Halves(r, h);
      PartIsSum(e, t - 1, q, 2 * r, from);
      PartIsSum(e, t - 1, q, 2 * r + 1, from + h);
      SumSplits(e, q, from, t - 1, h);
    }
  }

  lemma PartNext(e: seq<int>, t: nat, q: nat, r: nat)
    requires 0 < t
    ensures Part(e, t, q, r) == Part(e, t - 1, q, 2 * r) + Sign(IndexBit(q, t - 1)) * Part(e, t - 1, q, 2 * r + 1)
  {
    hide IndexBit;
  }

  lemma OneSigned(e: seq<int>, q: nat, r: nat)
    ensures SignedSum(e, q, r, 1) == At(e, r)
  {
    assert SignedSum(e, q, r, 1) == SignedSum(e, q, r, 0) + At(e, r) * Sign(Shared(q, 0));
  }

  lemma Halves(r: nat, h: nat)
    ensures (2 * r) * h == r * (2 * h) && (2 * r + 1) * h == r * (2 * h) + h
  {
  }

  // ------------------------------------------------------------ distances

  /** In how many of the first n copies bit b is not the codeword's. */
  function Wrong(cdw: seq<Lane64>, base: nat, m: nat, b: nat, n: nat): nat
    requires 2 * (base + n) <= |cdw| && b < 128
  {
    if n == 0 then 0 else Wrong(cdw, base, m, b, n - 1) + B2I(CopyBit(cdw, base + n - 1, b) != CodeBit(m, b))
  }

  /** How many bits of block i, over its copies and the first n places, are not the codeword's of byte m. */
  function DistanceTo(cdw: seq<Lane64>, i: nat, mult: nat, m: nat, n: nat): nat
    requires 2 * (i * mult + mult) <= |cdw| && n <= 128
  {
    if n == 0 then 0 else DistanceTo(cdw, i, mult, m, n - 1) + Wrong(cdw, i * mult, m, n - 1, mult)
  }

  lemma {:induction false} WrongIs(cdw: seq<Lane64>, base: nat, m: nat, b: nat, n: nat)
    requires 2 * (base + n) <= |cdw| && b < 128
    ensures Wrong(cdw, base, m, b, n) == if CodeBit(m, b) then n - Count(cdw, base, b, n) else Count(cdw, base, b, n)
  {
    hide CodeBit, CopyBit;
    if n > 0 { WrongIs(cdw, base, m, b, n - 1); }
  }

  /** 1 for a byte with bit 7 clear, -1 for one with it set. */
  function Side(m: nat): int { if m >= 128 then -1 else 1 }

  lemma CodeSign(m: nat, b: nat)
    ensures Sign(CodeBit(m, b)) == Side(m) * Sign(Shared(m % 128, b))
  {
    hide Shared;
  }

  lemma Ones(b: nat)
    requires b < 128
    ensures At(Character(0), b) == 1
  {
    NothingShared(b);
  }

  lemma {:induction false} NothingShared(b: nat)
    ensures !Shared(0, b)
  {
    if b > 0 { NothingShared(b / 2); }
  }

  /** Twice the distance, as signed sums of ones and of the counts. */
  lemma {:induction false} DistanceSum(cdw: seq<Lane64>, i: nat, mult: nat, m: nat, e: seq<int>, n: nat)
    requires 2 * (i * mult + mult) <= |cdw| && n <= 128 && e == Counts(cdw, i, mult)
    ensures 2 * DistanceTo(cdw, i, mult, m, n)
      == mult * (n - Side(m) * SignedSum(Character(0), m % 128, 0, n)) + 2 * (Side(m) * SignedSum(e, m % 128, 0, n))
    decreases n
  {
    hide CodeBit, CopyBit, Shared, Count, Side, Sign, Wrong, Character;
    if n > 0 {
      var b, q := n - 1, m % 128;
      DistanceSum(cdw, i, mult, m, e, b);
      WrongIs(cdw, i * mult, m, b, mult);
      CodeSign(m, b);
      Ones(b);
      assert At(e, b) == Count(cdw, i * mult, b, mult);
      OneTerm(mult, Wrong(cdw, i * mult, m, b, mult), Count(cdw, i * mult, b, mult), CodeBit(m, b));
      AddTerm(mult, b, Side(m), SignedSum(Character(0), q, 0, b), SignedSum(e, q, 0, b), Sign(Shared(q, b)), At(e, b),
        DistanceTo(cdw, i, mult, m, b), Wrong(cdw, i * mult, m, b, mult));
    } else {
      assert mult * (0 - Side(m) * 0) == 0;
    }
  }

  lemma OneTerm(mult: nat, d: nat, c: nat, x: bool)
    requires d == if x then mult - c else c
    ensures 2 * d == mult * (1 - Sign(x)) + 2 * (Sign(x) * c)
  {
  }

  lemma AddTerm(mult: int, n: int, side: int, ones: int, sum: int, s: int, c: int, dist: int, d: int)
    requires 2 * dist == mult * (n - side * ones) + 2 * (side * sum)
    requires 2 * d == mult * (1 - side * s) + 2 * ((side * s) * c)
    ensures 2 * (dist + d) == mult * (n + 1 - side * (ones + 1 * s)) + 2 * (side * (sum + c * s))
  {
    assert side * (ones + 1 * s) == side * ones + side * s;
    assert side * (sum + c * s) == side * sum + (side * s) * c;
    assert mult * (n - side * ones) + mult * (1 - side * s) == mult * (n + 1 - (side * ones + side * s));
  }

  /** The distance to every byte's codeword, from the spectrum at its low bits. */
  lemma DistanceIs(cdw: seq<Lane64>, i: nat, mult: nat, m: nat)
    requires 2 * (i * mult + mult) <= |cdw| && m < 256
    ensures DistanceTo(cdw, i, mult, m, 128) == 64 * mult + Side(m) * Spectrum(cdw, i, mult)[m % 128]
  {
    hide Counts, Part, SignedSum, DistanceTo, Side, Character;
    var e, q := Counts(cdw, i, mult), m % 128;
    DistanceSum(cdw, i, mult, m, e, 128);
    WholeSum(e, q);
    WholeSum(Character(0), q);
    CharacterTransform(0, q);
    SideIs(m);
    Balance(mult, Side(m), q == 0, SignedSum(e, q, 0, 128), DistanceTo(cdw, i, mult, m, 128));
  }

  lemma SideIs(m: nat)
    ensures Side(m) == 1 || Side(m) == -1
  {
  }

  lemma WholeSum(e: seq<int>, q: nat)
    ensures Part(e, 7, q, 0) == SignedSum(e, q, 0, 128)
  {
    assert Pow2(7) == 128;
    hide Part, SignedSum;
    PartIsSum(e, 7, q, 0, 0);
  }

  lemma Balance(mult: nat, side: int, zero: bool, sum: int, dist: int)
    requires (side == 1 || side == -1)
    requires 2 * dist == mult * (128 - side * (if zero then 128 else 0)) + 2 * (side * sum)
    ensures dist == 64 * mult + side * (sum - (if zero then 64 * mult else 0))
  {
    if zero { assert mult * (128 - side * 128) == 128 * mult - side * (128 * mult); }
  }

  /** The decoder's answer is nearest. */
  lemma Nearest(cdw: seq<Lane64>, i: nat, mult: nat, r: byte, m: byte)
    requires BlockAnswer(cdw, i, mult, r)
    ensures 2 * (i * mult + mult) <= |cdw|
    ensures DistanceTo(cdw, i, mult, r, 128) <= DistanceTo(cdw, i, mult, m, 128)
  {
    hide Spectrum, DistanceTo;
    DistanceIs(cdw, i, mult, r);
    DistanceIs(cdw, i, mult, m);
    var p := Spectrum(cdw, i, mult);
    assert Abs(p[m % 128]) <= Abs(p[r % 128]);
  }
}
