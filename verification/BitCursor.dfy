/** A byte string read as one long little-endian bit string, and 256 fields of w bits read off
    it by a bit cursor. */
module BitCursor {
  import opened ModArith
  import opened Bits
  import opened Radix

  lemma FieldFits(w: nat, m: nat, b: nat)
    requires m < 256 && b < w
    ensures (m * w + b) / 8 < 32 * w
  {
    MulMono(m, 255, w);
  }

  /** Bit b of field m of a packed buffer. */
  predicate FieldBit(buf: seq<byte>, w: nat, m: nat, b: nat)
    requires |buf| == 32 * w && m < 256 && b < w
  {
    FieldFits(w, m, b);
    StreamBit(buf, m * w + b)
  }

  lemma StreamIsVal(buf: seq<byte>, pos: nat)
    requires pos / 8 < |buf|
    ensures StreamBit(buf, pos) == BitOf(Val(buf, 256), pos)
  {
    Pow2Values();
    ValBit(buf, 8, pos / 8, pos % 8);
    assert 8 * (pos / 8) + pos % 8 == pos;
  }

  /** The bit cursor reads the bits of the unpacked field. */
  lemma FieldBitIs(buf: seq<byte>, w: nat, m: nat, b: nat)
    requires |buf| == 32 * w && m < 256 && b < w
    ensures FieldBit(buf, w, m, b) == BitOf(UnpackBits(buf, w, 256)[m], b)
  {
    FieldFits(w, m, b);
    StreamIsVal(buf, m * w + b);
    var f := UnpackBits(buf, w, 256);
    SameRange(w, 256, 32 * w);
    ValRange(buf, 256);
    ValToBase(Val(buf, 256), Pow2(w), 256);
    ValBit(f, w, m, b);
    assert w * m == m * w;
  }

  lemma FieldBitXor(b0: seq<byte>, b1: seq<byte>, w: nat, m: nat, b: nat)
    requires |b0| == |b1| == 32 * w && m < 256 && b < w
    ensures FieldBit(XorBytes(b0, b1), w, m, b) == (FieldBit(b0, w, m, b) != FieldBit(b1, w, m, b))
  {
    FieldFits(w, m, b);
    var pos := m * w + b;
    XorByteBit(b0[pos / 8], b1[pos / 8], pos % 8);
  }

  lemma SameByte(x: byte, y: byte)
    requires forall b: nat | b < 8 :: BitOf(x, b) == BitOf(y, b)
    ensures x == y
  {
    Pow2Values();
    SameBits(x, y, 8);
  }

  /** Setting a clear bit of a byte changes that bit alone. */
  lemma SetBit(x: byte, j: nat)
    requires j < 8 && !BitOf(x, j)
    ensures x + Pow2(j) < 256
    ensures forall b: nat | b < 8 :: BitOf(x + Pow2(j), b) == (b == j || BitOf(x, b))
  {
    Pow2Values();
    SetBitHigh(x, j);
    forall b: nat | b < 8 ensures BitOf(x + Pow2(j), b) == (b == j || BitOf(x, b)) {
      if b < j {
        SetBitBelow(x, j, b);
      } else if b > j {
        SetBitAbove(x, j, b);
      }
    }
  }

  lemma SetBitHigh(x: byte, j: nat)
    requires j < 8 && !BitOf(x, j)
    ensures BitOf(x + Pow2(j), j) && (x + Pow2(j)) / (2 * Pow2(j)) == x / (2 * Pow2(j)) && x + Pow2(j) < 256
  {
    Pow2Add(j, 8 - j);
    Pow2Double(8 - j);
    Pow2Values();
    hide Pow2;
    SetBitAt(x, Pow2(j), Pow2(7 - j), x / Pow2(j) / 2, x % Pow2(j));
  }

  lemma SetBitAt(x: byte, p: nat, m: nat, h: nat, r: nat)
    requires 0 < p && p * (2 * m) == 256 && (x / p) % 2 != 1 && h == x / p / 2 && r == x % p
    ensures ((x + p) / p) % 2 == 1 && (x + p) / (2 * p) == x / (2 * p) && x + p < 256
  {
    var q := x / p;
    assert q == 2 * h && x == p * q + r;
    SetBitParts(x, p, m, h, r);
  }

  lemma SetBitParts(x: int, p: nat, m: nat, h: nat, r: nat)
    requires 0 < p && p * (2 * m) == 256 && x == p * (2 * h) + r && r < p && 0 <= x < 256
    ensures ((x + p) / p) % 2 == 1 && (x + p) / (2 * p) == x / (2 * p) && x + p < 256
  {
    HalfTimes(p, h, m);
    var w := h * (2 * p);
    assert x == w + r;
    DivModUnique(x, 2 * p, h, r);
    DivModUnique(x + p, 2 * p, h, r + p);
    assert (2 * h + 1) * p == w + p;
    DivModUnique(x + p, p, 2 * h + 1, r);
    if h >= m { MulMono(m, h, 2 * p); }
    MulMono(h + 1, m, 2 * p);
  }

  lemma HalfTimes(p: int, h: int, m: int)
    ensures p * (2 * h) == h * (2 * p) && p * (2 * m) == m * (2 * p)
  {
  }

  lemma SetBitBelow(x: byte, j: nat, b: nat)
    requires b < j
    ensures BitOf(x + Pow2(j), b) == BitOf(x, b)
  {
    BitLow(x, 1, j, b);
  }

  lemma SetBitAbove(x: byte, j: nat, b: nat)
    requires j < b < 8 && !BitOf(x, j)
    ensures BitOf(x + Pow2(j), b) == BitOf(x, b)
  {
    SetBitHigh(x, j);
    var p, s := 2 * Pow2(j), Pow2(b - j - 1);
    Pow2Add(j + 1, b - j - 1);
    assert Pow2(j + 1) == p && Pow2(b) == p * s;
    QuotientTwice(x, p, s);
    QuotientTwice(x + Pow2(j), p, s);
  }

  lemma QuotientTwice(x: int, p: nat, s: nat)
    requires 0 < p && 0 < s
    ensures 0 < p * s && x / (p * s) == (x / p) / s
  {
    MulLower(p, s);
    var q, r := (x / p) / s, (x / p) % s;
    assert x / p == s * q + r && x == p * (x / p) + x % p;
    SplitTop(p, s, q, r);
    ValTop(x % p, r, p, s);
    DivModUnique(x, p * s, q, x % p + p * r);
  }

  // ------------------------------------------------------------ the two loops

  /** Every field read bit by bit. */
  method ReadFields(buf: seq<byte>, w: nat) returns (f: seq<int>)
    requires |buf| == 32 * w && 0 < w <= 16
    ensures f == UnpackBits(buf, w, 256)
  {
    hide UnpackBits, FieldBit;
    f := [];
    var bit := 0;
    for i := 0 to 256
      invariant |f| == i && bit == i * w
      invariant forall k | 0 <= k < i :: f[k] == UnpackBits(buf, w, 256)[k]
    {
      var v := ReadField(buf, w, i, bit);
      f := f + [v];
      assert (i + 1) * w == bit + w;
      bit := bit + w;
    }
  }

  method ReadField(buf: seq<byte>, w: nat, i: nat, bit: nat) returns (v: int)
    requires |buf| == 32 * w && 0 < w && i < 256 && bit == i * w
    ensures v == UnpackBits(buf, w, 256)[i]
  {
    hide UnpackBits, FieldBit, Pow2, BitOf;
    ghost var u := UnpackBits(buf, w, 256)[i];
    v := 0;
    FirstBits(u);
    for b := 0 to w
      invariant v == u % Pow2(b)
    {
      FieldBitIs(buf, w, i, b);
      FieldAt(buf, w, i, b);
      ModPow2Step(u, b);
      var p := bit + b;
      v := v + B2I(StreamBit(buf, p)) * Pow2(b);
    }
    DivModUnique(u, Pow2(w), 0, u);
  }

  lemma FirstBits(u: int)
    ensures u % Pow2(0) == 0
  {
  }

  lemma FieldAt(buf: seq<byte>, w: nat, i: nat, b: nat)
    requires |buf| == 32 * w && i < 256 && b < w
    ensures (i * w + b) / 8 < |buf| && FieldBit(buf, w, i, b) == StreamBit(buf, i * w + b)
  {
    FieldFits(w, i, b);
  }

  /** What the writing cursor has reached: bits below p as in the target, the rest clear. */
  ghost predicate Written(out: seq<byte>, target: seq<byte>, p: nat) {
    |out| == |target| && p <= 8 * |out|
    && forall i: nat, b: nat | i < |out| && b < 8 :: BitOf(out[i], b) == (8 * i + b < p && BitOf(target[i], b))
  }

  lemma WriteBit(out: seq<byte>, target: seq<byte>, p: nat)
    requires Written(out, target, p) && p < 8 * |out|
    ensures StreamBit(target, p) ==> out[p / 8] + Pow2(p % 8) < 256
    ensures StreamBit(target, p) ==> Written(out[p / 8 := out[p / 8] + Pow2(p % 8)], target, p + 1)
    ensures !StreamBit(target, p) ==> Written(out, target, p + 1)
  {
    hide BitOf, Pow2;
    var k, j := p / 8, p % 8;
    assert !BitOf(out[k], j);
    if StreamBit(target, p) {
      SetBit(out[k], j);
      var y := out[k] + Pow2(j);
      forall i: nat, b: nat | i < |out| && b < 8
        ensures BitOf(out[k := y][i], b) == (8 * i + b < p + 1 && BitOf(target[i], b))
      {
        Place(p, i, b);
        if i == k { assert BitOf(y, b) == (b == j || BitOf(out[k], b)); }
      }
    } else {
      forall i: nat, b: nat | i < |out| && b < 8
        ensures BitOf(out[i], b) == (8 * i + b < p + 1 && BitOf(target[i], b))
      {
        Place(p, i, b);
      }
    }
  }

  lemma Place(p: nat, i: nat, b: nat)
    requires b < 8
    ensures 8 * i + b == p <==> i == p / 8 && b == p % 8
  {
  }

  lemma WrittenAll(out: seq<byte>, target: seq<byte>)
    requires Written(out, target, 8 * |out|)
    ensures out == target
  {
    hide BitOf;
    forall i | 0 <= i < |out| ensures out[i] == target[i] { SameByte(out[i], target[i]); }
  }

  lemma WrittenNone(target: seq<byte>)
    ensures Written(seq<byte>(|target|, _ => 0), target, 0)
  {
    forall b: nat | b < 8 ensures !BitOf(0, b) { DivModUnique(0, Pow2(b), 0, 0); }
  }

  /** Bit b of field i of a packed target. */
  lemma PackedBit(f: seq<int>, w: nat, i: nat, b: nat)
    requires |f| == 256 && 0 < w && i < 256 && b < w && Digits(f, Pow2(w))
    ensures (i * w + b) / 8 < 32 * w && StreamBit(PackBits(f, w, 32 * w), i * w + b) == BitOf(f[i], b)
  {
    var t := PackBits(f, w, 32 * w);
    UnpackPack(f, w, 32 * w);
    FieldAt(t, w, i, b);
    FieldBitIs(t, w, i, b);
  }

  /** One bit at the cursor. */
  method WriteOne(out: seq<byte>, f: seq<int>, w: nat, i: nat, b: nat, p: nat) returns (next: seq<byte>)
    requires |f| == 256 && 0 < w && i < 256 && b < w && Digits(f, Pow2(w)) && p == i * w + b
    requires Written(out, PackBits(f, w, 32 * w), p) && |out| == 32 * w
    ensures |next| == 32 * w && Written(next, PackBits(f, w, 32 * w), p + 1)
  {
    ghost var t: seq<byte> := PackBits(f, w, 32 * w);
    hide PackBits, Written, Pow2, BitOf, Digits;
    PackedBit(f, w, i, b);
    WriteBit(out, t, p);
    next := if BitOf(f[i], b) then out[p / 8 := out[p / 8] + Pow2(p % 8)] else out;
  }

  /** Every bit of every field, set or clear, at the cursor. */
  method WriteFields(f: seq<int>, w: nat) returns (out: seq<byte>)
    requires |f| == 256 && 0 < w <= 16 && Digits(f, Pow2(w))
    ensures out == PackBits(f, w, 32 * w)
  {
    ghost var t: seq<byte> := PackBits(f, w, 32 * w);
    hide PackBits, Written, Pow2, BitOf, Digits;
    out := seq<byte>(32 * w, _ => 0);
    WrittenNone(t);
    var bit := 0;
    for i := 0 to 256
      invariant bit == i * w && Written(out, t, bit) && |out| == 32 * w
    {
      assert (i + 1) * w == bit + w;
      out := WriteField(out, f, w, i, bit);
      bit := bit + w;
    }
    assert bit == 8 * |out|;
    WrittenAll(out, t);
  }

  /** One field at the cursor. */
  method WriteField(old_: seq<byte>, f: seq<int>, w: nat, i: nat, bit: nat) returns (out: seq<byte>)
    requires |f| == 256 && 0 < w && i < 256 && Digits(f, Pow2(w)) && bit == i * w
    requires |old_| == 32 * w && Written(old_, PackBits(f, w, 32 * w), bit)
    ensures |out| == 32 * w && Written(out, PackBits(f, w, 32 * w), bit + w)
  {
    ghost var t: seq<byte> := PackBits(f, w, 32 * w);
    hide PackBits, Written, Pow2, BitOf, Digits;
    out := old_;
    for b := 0 to w
      invariant Written(out, t, bit + b) && |out| == 32 * w
    {
      out := WriteOne(out, f, w, i, b, bit + b);
    }
  }
}
