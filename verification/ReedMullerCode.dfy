/** The Reed-Muller encoder and decoder over words: what the encoder writes, and that the decoder
    recovers every message byte from any received word with few enough flips. */
module ReedMullerCode {
  import opened ModArith
  import opened Bits
  import opened ReedMuller

  // ------------------------------------------------------------ encoding

  /** Bit k of every index below 32: 0xaaaaaaaa, 0xcccccccc, 0xf0f0f0f0, 0xff00ff00, 0xffff0000. */
  function Mask(k: nat): (w: Word) { seq(32, b requires 0 <= b < 32 => IndexBit(b, k)) }

  /** All ones or all zeros. */
  function Fill(t: bool): (w: Word)
    ensures forall j | 0 <= j < 32 :: w[j] == t
  {
    if t then Ones(32) else Zeros(32)
  }

  lemma {:induction false} SharedLow(l: nat, b: nat, n: nat)
    requires b < Pow2(n)
    ensures Shared(l, b) == ParityTo(l, b, n)
    decreases n
  {
    if n == 0 {
    } else {
      SharedLow(l / 2, b / 2, n - 1);
      SharedStep(l, b / 2, b % 2);
      assert b == 2 * (b / 2) + b % 2;
      ParityInner(l, b, n);
    }
  }

  /** The parity of the n low shared bits. */
  predicate ParityTo(l: nat, b: nat, n: nat)
    decreases n
  {
    if n == 0 then false else ParityTo(l, b, n - 1) != (IndexBit(l, n - 1) && IndexBit(b, n - 1))
  }

  lemma {:induction false} ParityInner(l: nat, b: nat, n: nat)
    requires 0 < n
    ensures ParityTo(l, b, n) == (ParityTo(l / 2, b / 2, n - 1) != (l % 2 == 1 && b % 2 == 1))
    decreases n
  {
    hide HighBits;
    if n == 1 {
      LowestBit(l);
      LowestBit(b);
    } else {
      ParityInner(l, b, n - 1);
      HighBitsInner(l, n - 1);
      HighBitsInner(b, n - 1);
    }
  }

  lemma LowestBit(l: nat)
    ensures IndexBit(l, 0) == (l % 2 == 1)
  {
  }

  /** The word of 32 positions whose two high index bits are b5 and b6. */
  predicate CodeAt(m: nat, j: nat) {
    (((((IndexBit(m, 7) != (IndexBit(m, 0) && IndexBit(j, 0))) != (IndexBit(m, 1) && IndexBit(j, 1)))
      != (IndexBit(m, 2) && IndexBit(j, 2))) != (IndexBit(m, 3) && IndexBit(j, 3))) !=
        (IndexBit(m, 4) && IndexBit(j, 4)))
  }

  lemma {:induction false} ParityFive(m: nat, j: nat)
    ensures CodeAt(m, j) == (IndexBit(m, 7) != ParityTo(m, j, 5))
  {
    hide IndexBit;
  }

  /** Adding a multiple of 2^(n) leaves the bits below n alone. */
  lemma LowBitKept(l: nat, n: nat, c: nat, p: nat, k: nat)
    requires k < n && p == Pow2(n) * c
    ensures IndexBit(l + p, k) == IndexBit(l, k)
  {
    hide HighBits, Pow2;
    Pow2Add(k, n - k);
    Pow2Double(n - k);
    var u, h := Pow2(k), Pow2(n - k - 1);
    assert u * (2 * (h * c)) == p by { assert u * (2 * (h * c)) == (u * (2 * h)) * c; }
    HighShift(l, k, 2 * (h * c), p);
    EvenShift(HighBits(l, k), h * c);
  }

  lemma EvenShift(a: nat, b: nat)
    ensures (a + 2 * b) % 2 == a % 2
  {
  }

  lemma HighOfSmall(j: nat, c: nat, k: nat)
    requires j < 32 && c < 4 && k < 7
    ensures IndexBit(j + 32 * c, k) == if k < 5 then IndexBit(j, k) else if k == 5 then c % 2 == 1 else c / 2 == 1
  {
    assert Pow2(5) == 32;
    hide Pow2;
    if k < 5 {
      LowBitKept(j, 5, c, 32 * c, k);
    } else {
      TopTwo(j, c);
    }
  }

  lemma TopTwo(j: nat, c: nat)
    requires j < 32 && c < 4
    ensures IndexBit(j + 32 * c, 5) == (c % 2 == 1) && IndexBit(j + 32 * c, 6) == (c / 2 == 1)
  {
    assert Pow2(5) == 32;
    hide HighBits, Pow2, IndexBit;
    HighBitsZero(j, 5);
    HighShift(j, 5, c, 32 * c);
    BitPair(j + 32 * c, 5, c);
  }

  lemma BitPair(x: nat, n: nat, c: nat)
    requires HighBits(x, n) == c && c < 4
    ensures IndexBit(x, n) == (c % 2 == 1) && IndexBit(x, n + 1) == (c / 2 == 1)
  {
    hide HighBits;
    HighBitsNext(x, n);
  }

  lemma HighBitsNext(x: nat, n: nat)
    ensures HighBits(x, n + 1) == HighBits(x, n) / 2
  {
  }

  /** The codeword bit at j + 32 c from the 32-position word. */
  lemma CodeBitAt(m: nat, j: nat, c: nat)
    requires m < 256 && j < 32 && c < 4
    ensures CodeBit(m, j + 32 * c) == ((CodeAt(m, j) != (c % 2 == 1 && IndexBit(m, 5))) !=
      (c / 2 == 1 && IndexBit(m, 6)))
  {
    var b := j + 32 * c;
    ParityFive(m, j);
    LowMessage(m);
    assert Pow2(7) == 128;
    SharedLow(m % 128, b, 7);
    hide HighBits, IndexBit, CodeAt, Shared, Pow2;
    ParityBits(m, b, j, c);
  }

  lemma ParityBits(m: nat, b: nat, j: nat, c: nat)
    requires m < 256 && j < 32 && c < 4 && b == j + 32 * c
    ensures ParityTo(m % 128, b, 7)
      == ((ParityTo(m, j, 5) != (c % 2 == 1 && IndexBit(m, 5))) != (c / 2 == 1 && IndexBit(m, 6)))
  {
    hide HighBits, IndexBit;
    LowMessage(m);
    forall k: nat | k < 7 ensures IndexBit(b, k) == if k < 5 then IndexBit(j, k) else if k == 5 then c % 2 == 1
      else c / 2 == 1 {
      HighOfSmall(j, c, k);
    }
    ParitySame(m % 128, m, b, j, 5);
    assert ParityTo(m % 128, b, 6) == (ParityTo(m % 128, b, 5) != (IndexBit(m % 128, 5) && IndexBit(b, 5)));
  }

  lemma {:induction false} ParitySame(l: nat, m: nat, b: nat, j: nat, n: nat)
    requires forall k: nat | k < n :: IndexBit(l, k) == IndexBit(m, k) && IndexBit(b, k) == IndexBit(j, k)
    ensures ParityTo(l, b, n) == ParityTo(m, j, n)
  {
    hide IndexBit;
    if n > 0 { ParitySame(l, m, b, j, n - 1); }
  }

  /** The seven low bits of a byte, and its eighth. */
  lemma LowMessage(m: nat)
    requires m < 256
    ensures IndexBit(m, 7) == (m >= 128)
    ensures forall k: nat | k < 7 :: IndexBit(m % 128, k) == IndexBit(m, k)
  {
    var l, t := m % 128, if m >= 128 then 1 else 0;
    assert m == l + 128 * t;
    assert Pow2(7) == 128;
    hide HighBits, Pow2, IndexBit;
    HighBitsZero(l, 7);
    HighShift(l, 7, t, 128 * t);
    BitOfHigh(m, 7, t);
    forall k: nat | k < 7 ensures IndexBit(m % 128, k) == IndexBit(m, k) {
      LowBitKept(l, 7, t, 128 * t, k);
    }
  }

  // ------------------------------------------------------------ the encoder

  /** The four 32-bit words of a codeword, masks folded in from the message's bits. */
  method EncodeByte(m: byte) returns (w0: Lane64, w1: Lane64)
    ensures forall b | 0 <= b < 64 :: w0[b] == CodeBit(m, b) && w1[b] == CodeBit(m, b + 64)
  {
    hide IndexBit, CodeBit, CodeAt;
    var a := Fill(IndexBit(m, 7));
    a := Xor(a, And(Fill(IndexBit(m, 0)), Mask(0)));
    a := Xor(a, And(Fill(IndexBit(m, 1)), Mask(1)));
    a := Xor(a, And(Fill(IndexBit(m, 2)), Mask(2)));
    a := Xor(a, And(Fill(IndexBit(m, 3)), Mask(3)));
    a := Xor(a, And(Fill(IndexBit(m, 4)), Mask(4)));
    var u0 := a;
    a := Xor(a, Fill(IndexBit(m, 5)));
    var u1 := a;
    a := Xor(a, Fill(IndexBit(m, 6)));
    var u3 := a;
    a := Xor(a, Fill(IndexBit(m, 5)));
    var u2 := a;
    w0 := u0 + u1;
    w1 := u2 + u3;
    forall j | 0 <= j < 32 ensures u0[j] == CodeAt(m, j) { FirstWord(m, j, u0); }
    CodewordWords(m, u0, u1, u2, u3);
  }

  lemma FirstWord(m: byte, j: nat, u: Word)
    requires j < 32
    requires u[j] == (((((IndexBit(m, 7) != (IndexBit(m, 0) && Mask(0)[j])) != (IndexBit(m, 1) && Mask(1)[j]))
      != (IndexBit(m, 2) && Mask(2)[j])) != (IndexBit(m, 3) && Mask(3)[j])) != (IndexBit(m, 4) && Mask(4)[j]))
    ensures u[j] == CodeAt(m, j)
  {
    hide IndexBit;
  }

  lemma CodewordWords(m: byte, u0: Word, u1: Word, u2: Word, u3: Word)
    requires forall j | 0 <= j < 32 :: u0[j] == CodeAt(m, j) && u1[j] == (u0[j] != IndexBit(m, 5))
    requires forall j | 0 <= j < 32 :: u3[j] == (u1[j] != IndexBit(m, 6)) && u2[j] == (u3[j] != IndexBit(m, 5))
    ensures forall b | 0 <= b < 64 :: (u0 + u1)[b] == CodeBit(m, b) && (u2 + u3)[b] == CodeBit(m, b + 64)
  {
    hide IndexBit, CodeBit, CodeAt;
    forall b | 0 <= b < 64 ensures (u0 + u1)[b] == CodeBit(m, b) && (u2 + u3)[b] == CodeBit(m, b + 64) {
      var j, c := b % 32, b / 32;
      CodeBitAt(m, j, c);
      CodeBitAt(m, j, c + 2);
      assert c == 0 || c == 1;
    }
  }

  /** Bit b of copy k of a received or sent word string. */
  predicate CopyBit(cdw: seq<Lane64>, k: nat, b: nat)
    requires 2 * k + 1 < |cdw| && b < 128
  {
    if b < 64 then cdw[2 * k][b] else cdw[2 * k + 1][b - 64]
  }

  /** Copy c of block i carries m's codeword at position b. */
  ghost predicate SentBit(cdw: seq<Lane64>, i: nat, mult: nat, m: byte, c: nat, b: nat)
    requires b < 128
  {
    2 * (i * mult + c) + 1 < |cdw| && CopyBit(cdw, i * mult + c, b) == CodeBit(m, b)
  }

  ghost predicate BlockSent(cdw: seq<Lane64>, i: nat, mult: nat, m: byte, copies: nat) {
    forall c, b | 0 <= c < copies && 0 <= b < 128 :: SentBit(cdw, i, mult, m, c, b)
  }

  /** What the encoder writes: mult copies of each byte's codeword. */
  ghost predicate Sent(cdw: seq<Lane64>, msg: seq<byte>, mult: nat) {
    |cdw| == 2 * (|msg| * mult) && forall i | 0 <= i < |msg| :: BlockSent(cdw, i, mult, msg[i], mult)
  }

  lemma SentMore(cdw: seq<Lane64>, w0: Lane64, w1: Lane64, i: nat, mult: nat, m: byte, copies: nat)
    requires BlockSent(cdw, i, mult, m, copies)
    ensures BlockSent(cdw + [w0, w1], i, mult, m, copies)
    ensures |cdw| == 2 * (i * mult + copies) &&
      (forall b | 0 <= b < 64 :: w0[b] == CodeBit(m, b) && w1[b] == CodeBit(m, b + 64))
      ==> BlockSent(cdw + [w0, w1], i, mult, m, copies + 1)
  {
    hide CodeBit;
    var d := cdw + [w0, w1];
    forall c, b | 0 <= c < copies && 0 <= b < 128
      ensures SentBit(d, i, mult, m, c, b) { assert SentBit(cdw, i, mult, m, c, b); }
    if |cdw| == 2 * (i * mult + copies) && forall b | 0 <= b < 64 :: w0[b] == CodeBit(m, b) &&
                                             w1[b] == CodeBit(m, b + 64) {
      forall b | 0 <= b < 128 ensures SentBit(d, i, mult, m, copies, b) {
        if b >= 64 { assert w1[b - 64] == CodeBit(m, b - 64 + 64); }
      }
    }
  }

  /** The copies of one block. */
  method EncodeBlock(old_: seq<Lane64>, m: byte, i: nat, mult: nat, ghost msg: seq<byte>) returns (cdw: seq<Lane64>)
    requires |old_| == 2 * (i * mult) && i < |msg| && msg[i] == m
    requires forall k | 0 <= k < i :: BlockSent(old_, k, mult, msg[k], mult)
    ensures |cdw| == 2 * (i * mult + mult)
    ensures forall k | 0 <= k < i + 1 :: BlockSent(cdw, k, mult, msg[k], mult)
  {
    hide BlockSent;
    var w0, w1 := EncodeByte(m);
    cdw := old_;
    BlockNone(cdw, i, mult, m);
    for c := 0 to mult
      invariant |cdw| == 2 * (i * mult + c) && BlockSent(cdw, i, mult, m, c)
      invariant forall k | 0 <= k < i :: BlockSent(cdw, k, mult, msg[k], mult)
    {
      SentMore(cdw, w0, w1, i, mult, m, c);
      forall k | 0 <= k < i
        ensures BlockSent(cdw + [w0, w1], k, mult, msg[k], mult)
      {
        SentMore(cdw, w0, w1, k, mult, msg[k], mult);
      }
      cdw := cdw + [w0, w1];
    }
  }

  lemma BlockNone(cdw: seq<Lane64>, i: nat, mult: nat, m: byte)
    ensures BlockSent(cdw, i, mult, m, 0)
  {
  }

  /** The duplicated code. */
  method Encode(msg: seq<byte>, mult: nat) returns (cdw: seq<Lane64>)
    ensures Sent(cdw, msg, mult)
  {
    hide BlockSent;
    cdw := [];
    for i := 0 to |msg|
      invariant |cdw| == 2 * (i * mult) && forall k | 0 <= k < i :: BlockSent(cdw, k, mult, msg[k], mult)
    {
      assert (i + 1) * mult == i * mult + mult;
      cdw := EncodeBlock(cdw, msg[i], i, mult, msg);
    }
  }

  // ------------------------------------------------------------ decoding

  /** How many of the first n copies from `base` have bit b set. */
  function Count(cdw: seq<Lane64>, base: nat, b: nat, n: nat): (c: nat)
    requires 2 * (base + n) <= |cdw| && b < 128
    ensures c <= n
  {
    if n == 0 then 0 else Count(cdw, base, b, n - 1) + B2I(CopyBit(cdw, base + n - 1, b))
  }

  /** How many of them differ from the sent ones. */
  function Flips(cdw: seq<Lane64>, sent: seq<Lane64>, base: nat, b: nat, n: nat): (c: nat)
    requires 2 * (base + n) <= |cdw| == |sent| && b < 128
  {
    if n == 0 then 0 else
      Flips(cdw, sent, base, b, n - 1) + B2I(CopyBit(cdw, base + n - 1, b) != CopyBit(sent, base + n - 1, b))
  }

  lemma BlockIn(i: nat, n: nat, mult: nat)
    requires i < n
    ensures i * mult + mult <= n * mult
  {
    MulMono(i + 1, n, mult);
    assert (i + 1) * mult == i * mult + mult;
  }

  /** Block i's counts. */
  function Counts(cdw: seq<Lane64>, i: nat, mult: nat): (e: seq<int>)
    requires 2 * (i * mult + mult) <= |cdw|
    ensures |e| == 128
  {
    seq(128, b requires 0 <= b < 128 => Count(cdw, i * mult, b, mult))
  }

  function BlockFlips(cdw: seq<Lane64>, sent: seq<Lane64>, i: nat, mult: nat): (f: seq<int>)
    requires 2 * (i * mult + mult) <= |cdw| == |sent|
    ensures |f| == 128
  {
    seq(128, b requires 0 <= b < 128 => Flips(cdw, sent, i * mult, b, mult))
  }

  /** The flipped bits of block i, over all its copies. */
  function Distance(cdw: seq<Lane64>, sent: seq<Lane64>, i: nat, mult: nat): nat
    requires 2 * (i * mult + mult) <= |cdw| == |sent|
  {
    RangeSum(BlockFlips(cdw, sent, i, mult), 0, 128)
  }

  lemma {:induction false} CountNear(cdw: seq<Lane64>, sent: seq<Lane64>, i: nat, mult: nat, m: byte, b: nat, n: nat)
    requires 2 * (i * mult + n) <= |cdw| == |sent| && b < 128 && n <= mult && BlockSent(sent, i, mult, m, mult)
    ensures Abs(Count(cdw, i * mult, b, n) - n * B2I(CodeBit(m, b))) <= Flips(cdw, sent, i * mult, b, n)
    decreases n
  {
    hide CodeBit;
    if n > 0 {
      CountNear(cdw, sent, i, mult, m, b, n - 1);
      assert SentBit(sent, i, mult, m, n - 1, b);
      assert i * mult + (n - 1) == i * mult + n - 1;
      assert n * B2I(CodeBit(m, b)) == (n - 1) * B2I(CodeBit(m, b)) + B2I(CodeBit(m, b));
    }
  }

  lemma {:induction false} RangeLess(d: seq<int>, f: seq<int>, n: nat)
    requires n <= |d| == |f| && forall b | 0 <= b < |d| :: Abs(d[b]) <= f[b]
    ensures RangeSum(d, 0, n) <= RangeSum(f, 0, n)
  {
    if n > 0 { RangeLess(d, f, n - 1); }
  }

  /** The transform of a block's counts, its constant term removed at 0. */
  function Spectrum(cdw: seq<Lane64>, i: nat, mult: nat): (p: seq<int>)
    requires 2 * (i * mult + mult) <= |cdw|
    ensures |p| == 128
  {
    seq(128, q requires 0 <= q < 128 => Part(Counts(cdw, i, mult), 7, q, 0) - (if q == 0 then 64 * mult else 0))
  }

  /** The decoder's answer: the first highest peak, and its sign in bit 7. */
  ghost predicate PeakAnswer(p: seq<int>, r: int) {
    |p| == 128 && 0 <= r < 256
    && (forall q | 0 <= q < 128 :: Abs(p[q]) <= Abs(p[r % 128]))
    && (forall q | 0 <= q < r % 128 :: Abs(p[q]) < Abs(p[r % 128]))
    && (r >= 128 <==> p[r % 128] > 0)
  }

  /** What the flips add to a clean block's counts. */
  function Disturbance(e: seq<int>, m: byte, mult: nat): (d: seq<int>)
    requires |e| == 128
    ensures |d| == 128
  {
    seq(128, b requires 0 <= b < 128 => e[b] - mult * B2I(CodeBit(m, b)))
  }

  lemma DisturbanceIs(e: seq<int>, m: byte, mult: nat)
    requires |e| == 128
    ensures Disturbed(e, m, mult, Disturbance(e, m, mult))
  {
    hide CodeBit;
  }

  lemma DisturbanceBelow(cdw: seq<Lane64>, sent: seq<Lane64>, i: nat, mult: nat, m: byte)
    requires 2 * (i * mult + mult) <= |cdw| == |sent| && BlockSent(sent, i, mult, m, mult)
    ensures RangeSum(Disturbance(Counts(cdw, i, mult), m, mult), 0, 128) <= Distance(cdw, sent, i, mult)
  {
    hide CodeBit, RangeSum, BlockSent, Count, Flips;
    var d, f := Disturbance(Counts(cdw, i, mult), m, mult), BlockFlips(cdw, sent, i, mult);
    forall b | 0 <= b < 128 ensures Abs(d[b]) <= f[b] { CountNear(cdw, sent, i, mult, m, b, mult); }
    RangeLess(d, f, 128);
  }

  /** Every byte survives fewer than 32 mult flips among its copies. */
  lemma DecodeRecovers(cdw: seq<Lane64>, sent: seq<Lane64>, i: nat, mult: nat, m: byte, r: int)
    requires 2 * (i * mult + mult) <= |cdw| == |sent| && BlockSent(sent, i, mult, m, mult)
    requires Distance(cdw, sent, i, mult) < 32 * mult && PeakAnswer(Spectrum(cdw, i, mult), r)
    ensures r == m
  {
    hide Part, RangeSum, BlockSent, Counts, Disturbance, Distance, Disturbed, PeakAnswer;
    var e := Counts(cdw, i, mult);
    var d, p := Disturbance(e, m, mult), Spectrum(cdw, i, mult);
    DisturbanceIs(e, m, mult);
    DisturbanceBelow(cdw, sent, i, mult, m);
    PeakIsMessage(e, m, mult, d, p);
    SamePeak(p, m, r, mult);
  }

  lemma SamePeak(p: seq<int>, m: byte, r: int, mult: nat)
    requires |p| == 128 && PeakAnswer(p, r) && Abs(p[m % 128]) > 32 * mult && (p[m % 128] > 0 <==> m >= 128)
    requires forall q | 0 <= q < 128 && q != m % 128 :: Abs(p[q]) < 32 * mult
    ensures r == m
  {
  }

  // ------------------------------------------------------------ the decoder's loops

  method CountCopies(cdw: seq<Lane64>, i: nat, mult: nat) returns (e: array<int16>)
    requires 2 * (i * mult + mult) <= |cdw| && mult < 256
    ensures fresh(e) && e[..] == Counts(cdw, i, mult)
  {
    hide CopyBit;
    e := new int16[128](_ => 0);
    for c := 0 to mult
      invariant forall b | 0 <= b < 128 :: e[b] == Count(cdw, i * mult, b, c)
    {
      AddCopy(e, cdw, i * mult, c);
    }
  }

  method AddCopy(e: array<int16>, cdw: seq<Lane64>, base: nat, c: nat)
    requires e.Length == 128 && 2 * (base + c + 1) <= |cdw| && c < 255
    requires forall b | 0 <= b < 128 :: e[b] == Count(cdw, base, b, c)
    modifies e
    ensures forall b | 0 <= b < 128 :: e[b] == Count(cdw, base, b, c + 1)
  {
    hide CopyBit;
    for b := 0 to 128
      invariant forall k | 0 <= k < b :: e[k] == Count(cdw, base, k, c + 1)
      invariant forall k | b <= k < 128 :: e[k] == Count(cdw, base, k, c)
    {
      e[b] := e[b] + B2I(CopyBit(cdw, base + c, b));
    }
  }

  /** One Hadamard pass from buffer to buffer; no sum leaves 16 bits. */
  method Pass(p1: array<int16>, p2: array<int16>, ghost e: seq<int>, ghost t: nat, ghost m: nat)
    requires p1.Length == p2.Length == 128 && p1 != p2 && t < 7 && 128 * m < 0x8000
    requires forall b | 0 <= b < |e| :: Abs(e[b]) <= m
    requires forall j | 0 <= j < 128 :: p1[j] == Expected(e, t, j)
    modifies p2
    ensures forall j | 0 <= j < 128 :: p2[j] == Expected(e, t + 1, j)
  {
    hide Expected;
    for q := 0 to 64
      invariant forall j | 0 <= j < q :: p2[j] == Expected(e, t + 1, j)
      invariant forall j | 64 <= j < 64 + q :: p2[j] == Expected(e, t + 1, j)
    {
      Butterfly(e, t, q);
      ExpectedBound(e, t + 1, q, m);
      ExpectedBound(e, t + 1, q + 64, m);
      p2[q] := p1[2 * q] + p1[2 * q + 1];
      p2[q + 64] := p1[2 * q] - p1[2 * q + 1];
    }
  }

  /** v >> 31: all ones when negative. */
  function SignMask(v: int): int { if v < 0 then -1 else 0 }

  /** (m & a) | (~m & b), for a mask of all ones or none. */
  function MaskPick(m: int, a: int, b: int): int { if m == -1 then a else b }

  /** The running best by masks: the first entry of largest absolute value. */
  method FindPeak(p: seq<int>) returns (r: int)
    requires |p| == 128
    ensures PeakAnswer(p, r)
  {
    var bestAbs, bestVal, bestPos := 0, 0, 0;
    for q := 0 to 128
      invariant 0 <= bestPos < 128 && bestAbs == Abs(bestVal) && (bestVal != 0 ==> p[bestPos] == bestVal)
      invariant bestVal == 0 ==> bestPos == 0
      invariant forall k | 0 <= k < q :: Abs(p[k]) <= bestAbs
      invariant forall k | 0 <= k < bestPos :: Abs(p[k]) < bestAbs
    {
      var v := p[q];
      var neg := SignMask(v);
      var av := (if neg == -1 then -v - 1 else v) - neg;
      var gt := SignMask(bestAbs - av);
      bestVal := MaskPick(gt, v, bestVal);
      bestPos := MaskPick(gt, q, bestPos);
      bestAbs := MaskPick(gt, av, bestAbs);
    }
    var pos := SignMask(0 - bestVal);
    r := if pos == -1 then bestPos + 128 else bestPos;
  }

  lemma CountsBound(cdw: seq<Lane64>, i: nat, mult: nat)
    requires 2 * (i * mult + mult) <= |cdw|
    ensures forall b | 0 <= b < 128 :: Abs(Counts(cdw, i, mult)[b]) <= mult
  {
    hide Count;
  }

  lemma ExpectedEnds(e: seq<int>)
    requires |e| == 128
    ensures forall j: nat | j < 128 :: Expected(e, 0, j) == e[j] && Expected(e, 7, j) == Part(e, 7, j, 0)
  {
    var t: nat :| t == 7;
    forall j: nat | j < 128 ensures Expected(e, 0, j) == e[j] && Expected(e, 7, j) == Part(e, 7, j, 0) {
      LowAll(j);
      hide Low;
    }
  }

  lemma LowAll(j: nat)
    requires j < 128
    ensures Low(j, 7) == j && Low(j, 0) == 0 && HighBits(j, 0) == j
  {
    assert Pow2(7) == 128;
    hide HighBits;
    HighBitsZero(j, 7);
    LowWhole(j, 7);
  }

  lemma {:induction false} LowWhole(j: nat, k: nat)
    requires j < Pow2(k)
    ensures Low(j, k) == j
    decreases k
  {
    if k > 0 { LowWhole(j / 2, k - 1); }
  }

  /** The seven passes, swapping buffers, and the constant term removed. */
  method Transform(e: array<int16>, mult: nat, ghost c: seq<int>) returns (p: seq<int>)
    requires e.Length == 128 && e[..] == c && 128 * mult < 0x8000 && |c| == 128 &&
      forall b | 0 <= b < 128 :: Abs(c[b]) <= mult
    modifies e
    ensures |p| == 128 && forall q: nat | q < 128 :: p[q] == Part(c, 7, q, 0) - (if q == 0 then 64 * mult else 0)
  {
    hide Part, Expected;
    var t := new int16[128](_ => 0);
    var p1, p2 := e, t;
    ExpectedEnds(c);
    for pass := 0 to 7
      invariant p1 != p2 && p1.Length == p2.Length == 128 && {p1, p2} == {e, t}
      invariant forall j: nat | j < 128 :: p1[j] == Expected(c, pass, j)
    {
      Pass(p1, p2, c, pass, mult);
      p1, p2 := p2, p1;
    }
    var s := p1[..];
    p := s[0 := s[0] - 64 * mult];
  }

  /** One byte from its copies. */
  method DecodeBlock(cdw: seq<Lane64>, n: nat, i: nat, mult: nat) returns (r: byte)
    requires |cdw| == 2 * (n * mult) && i < n && mult < 256
    ensures BlockAnswer(cdw, i, mult, r)
  {
    hide Part, Counts, PeakAnswer;
    BlockIn(i, n, mult);
    CountsBound(cdw, i, mult);
    var e := CountCopies(cdw, i, mult);
    var p := Transform(e, mult, Counts(cdw, i, mult));
    assert p == Spectrum(cdw, i, mult);
    PeakRange(p);
    r := FindPeak(p);
  }

  lemma PeakRange(p: seq<int>)
    ensures forall r | PeakAnswer(p, r) :: 0 <= r < 256
  {
  }

  /** The decoder on any received words. */
  method Decode(cdw: seq<Lane64>, n: nat, mult: nat) returns (msg: seq<byte>)
    requires |cdw| == 2 * (n * mult) && mult < 256
    ensures |msg| == n
    ensures forall i | 0 <= i < n :: BlockAnswer(cdw, i, mult, msg[i])
  {
    hide *;
    msg := [];
    for i := 0 to n
      invariant |msg| == i && forall k | 0 <= k < i :: BlockAnswer(cdw, k, mult, msg[k])
    {
      var r := DecodeBlock(cdw, n, i, mult);
      msg := msg + [r];
    }
  }

  ghost predicate BlockAnswer(cdw: seq<Lane64>, i: nat, mult: nat, r: byte) {
    2 * (i * mult + mult) <= |cdw| && PeakAnswer(Spectrum(cdw, i, mult), r)
  }

  /** Decoding what was sent, with fewer than 32 mult flips in each block, gives the message. */
  lemma DecodeSent(cdw: seq<Lane64>, sent: seq<Lane64>, msg: seq<byte>, mult: nat, out: seq<byte>)
    requires Sent(sent, msg, mult) && |cdw| == |sent| && |out| == |msg|
    requires forall i | 0 <= i < |msg| :: BlockAnswer(cdw, i, mult, out[i])
    requires forall i | 0 <= i < |msg| :: BlockClose(cdw, sent, i, mult)
    ensures out == msg
  {
    hide PeakAnswer, Spectrum, BlockSent, Distance;
    forall i | 0 <= i < |msg| ensures out[i] == msg[i] {
      assert BlockAnswer(cdw, i, mult, out[i]) && BlockClose(cdw, sent, i, mult);
      DecodeRecovers(cdw, sent, i, mult, msg[i], out[i]);
    }
  }

  ghost predicate BlockClose(cdw: seq<Lane64>, sent: seq<Lane64>, i: nat, mult: nat) {
    2 * (i * mult + mult) <= |cdw| == |sent| && Distance(cdw, sent, i, mult) < 32 * mult
  }
}
