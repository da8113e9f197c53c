/** Digit strings: little-endian numbers in any base, and the change of base that packing
    fixed-width fields into bytes amounts to. */
module Radix {
  import opened ModArith

  /** d[0] + d[1] b + d[2] b^2 + ... */
  function Val(d: seq<int>, b: nat): int {
    if d == [] then 0 else d[0] + b * Val(d[1..], b)
  }

  function Raise(b: nat, n: nat): (p: nat)
    ensures 0 < b ==> 0 < p
  {
    if n == 0 then 1 else
      assert 0 < b ==> 0 < b * Raise(b, n - 1) by { if 0 < b { MulLower(b, Raise(b, n - 1)); } }
      b * Raise(b, n - 1)
  }

  predicate Digits(d: seq<int>, b: nat) { forall i | 0 <= i < |d| :: 0 <= d[i] < b }

  /** The n low digits of v in base b. */
  function ToBase(v: int, b: nat, n: nat): (d: seq<int>)
    requires 0 < b
    ensures |d| == n && Digits(d, b)
    decreases n
  {
    if n == 0 then [] else [v % b] + ToBase(v / b, b, n - 1)
  }

  lemma {:induction false} RaiseIsPow2(w: nat, n: nat)
    ensures Raise(Pow2(w), n) == Pow2(w * n)
    decreases n
  {
    if n > 0 {
      RaiseIsPow2(w, n - 1);
      assert w * n == w + w * (n - 1);
      Pow2Add(w, w * (n - 1));
    } else {
      assert w * 0 == 0;
    }
  }

  lemma {:induction false} ValRange(d: seq<int>, b: nat)
    requires Digits(d, b) && 0 < b
    ensures 0 <= Val(d, b) < Raise(b, |d|)
    decreases |d|
  {
    if d != [] {
      ValRange(d[1..], b);
      ValTop(d[0], Val(d[1..], b), b, Raise(b, |d| - 1));
    }
  }

  lemma ValTop(x: int, v: int, b: nat, p: nat)
    requires 0 <= x < b && 0 <= v < p
    ensures 0 <= x + b * v < b * p
  {
    MulMono(v + 1, p, b);
  }

  lemma {:induction false} ValAppend(c: seq<int>, d: seq<int>, b: nat)
    ensures Val(c + d, b) == Val(c, b) + Raise(b, |c|) * Val(d, b)
    decreases |c|
  {
    if c == [] {
      assert c + d == d;
    } else {
      ValAppend(c[1..], d, b);
      assert (c + d)[0] == c[0] && (c + d)[1..] == c[1..] + d;
      var p, v := Raise(b, |c| - 1), Val(d, b);
      assert b * (Val(c[1..], b) + p * v) == b * Val(c[1..], b) + (b * p) * v;
    }
  }

  /** A number is its digits. */
  lemma {:induction false} ValToBase(v: int, b: nat, n: nat)
    requires 0 < b && 0 <= v < Raise(b, n)
    ensures Val(ToBase(v, b, n), b) == v
    decreases n
  {
    if n > 0 {
      var q, r := v / b, v % b;
      assert v == b * q + r;
      assert 0 <= q by { if q <= -1 { MulMono(q, -1, b); } }
      assert q < Raise(b, n - 1) by { if q >= Raise(b, n - 1) { MulMono(Raise(b, n - 1), q, b); } }
      ValToBase(q, b, n - 1);
      assert ToBase(v, b, n)[1..] == ToBase(q, b, n - 1);
    }
  }

  /** Digits are determined by their number. */
  lemma {:induction false} ToBaseVal(d: seq<int>, b: nat)
    requires 0 < b && Digits(d, b)
    ensures ToBase(Val(d, b), b, |d|) == d
    decreases |d|
  {
    if d != [] {
      ToBaseVal(d[1..], b);
      var v := Val(d[1..], b);
      assert d[0] + b * v == v * b + d[0];
      DivModUnique(d[0] + b * v, b, v, d[0]);
    }
  }

  /** Fields of w bits as bytes: the same number in base 256. */
  function PackBits(f: seq<int>, w: nat, bytes: nat): (r: seq<int>)
    ensures |r| == bytes && Digits(r, 256)
  {
    ToBase(Val(f, Pow2(w)), 256, bytes)
  }

  function UnpackBits(r: seq<int>, w: nat, fields: nat): (f: seq<int>)
    ensures |f| == fields && Digits(f, Pow2(w))
  {
    ToBase(Val(r, 256), Pow2(w), fields)
  }

  lemma SameRange(w: nat, fields: nat, bytes: nat)
    requires w * fields == 8 * bytes
    ensures Raise(Pow2(w), fields) == Raise(256, bytes)
  {
    RaiseIsPow2(w, fields);
    RaiseIsPow2(8, bytes);
    assert Pow2(8) == 256 by { Pow2Values(); }
  }

  /** Reading back what was packed. */
  lemma UnpackPack(f: seq<int>, w: nat, bytes: nat)
    requires w * |f| == 8 * bytes && Digits(f, Pow2(w))
    ensures UnpackBits(PackBits(f, w, bytes), w, |f|) == f
  {
    SameRange(w, |f|, bytes);
    ValRange(f, Pow2(w));
    ValToBase(Val(f, Pow2(w)), 256, bytes);
    ToBaseVal(f, Pow2(w));
  }

  /** Every byte string is the packing of what is read from it. */
  lemma PackUnpack(r: seq<int>, w: nat, fields: nat)
    requires w * fields == 8 * |r| && Digits(r, 256)
    ensures PackBits(UnpackBits(r, w, fields), w, |r|) == r
  {
    SameRange(w, fields, |r|);
    ValRange(r, 256);
    ValToBase(Val(r, 256), Pow2(w), fields);
    ToBaseVal(r, 256);
  }

  /** The same number in two bases, group by group: what the packing loops keep. */
  ghost predicate SameNumber(f: seq<int>, w: nat, r: seq<int>) {
    w * |f| == 8 * |r| && Digits(f, Pow2(w)) && Digits(r, 256) && Val(f, Pow2(w)) == Val(r, 256)
  }

  lemma SameAppend(f: seq<int>, r: seq<int>, g: seq<int>, s: seq<int>, w: nat)
    requires SameNumber(f, w, r) && SameNumber(g, w, s)
    ensures SameNumber(f + g, w, r + s)
  {
    SameRange(w, |f|, |r|);
    hide Val, Raise, Pow2;
    ValAppend(f, g, Pow2(w));
    ValAppend(r, s, 256);
    Distribute(w, |f|, |g|);
  }

  lemma Distribute(w: int, m: int, n: int)
    ensures w * (m + n) == w * m + w * n
  {
  }

  lemma SameIsPack(f: seq<int>, r: seq<int>, w: nat)
    requires SameNumber(f, w, r)
    ensures r == PackBits(f, w, |r|) && f == UnpackBits(r, w, |f|)
  {
    ToBaseVal(r, 256);
    ToBaseVal(f, Pow2(w));
  }

  // ------------------------------------------------------------ bits

  /** Bit w i + b of the number is bit b of digit i. */
  lemma {:induction false} ValBit(d: seq<int>, w: nat, i: nat, b: nat)
    requires Digits(d, Pow2(w)) && i < |d| && b < w
    ensures BitOf(Val(d, Pow2(w)), w * i + b) == BitOf(d[i], b)
    decreases i
  {
    var p := Pow2(w);
    var v := Val(d[1..], p);
    if i == 0 {
      assert w * i + b == b;
      BitLow(d[0], v, w, b);
    } else {
      ValBit(d[1..], w, i - 1, b);
      assert w * i + b == w + (w * (i - 1) + b);
      BitHigh(d[0], v, w, w * (i - 1) + b);
    }
  }

  lemma BitLow(x: int, v: int, w: nat, b: nat)
    requires b < w
    ensures BitOf(x + Pow2(w) * v, b) == BitOf(x, b)
  {
    Pow2Add(b, w - b);
    Pow2Double(w - b);
    BitLowArith(x, v, Pow2(b), Pow2(w - b - 1));
  }

  lemma BitLowArith(x: int, v: int, p: nat, s: nat)
    requires 0 < p
    ensures ((x + (p * (2 * s)) * v) / p) % 2 == (x / p) % 2
  {
    var q, r := x / p, x % p;
    var k := s * v;
    Regroup(p, s, v);
    assert x + (p * (2 * s)) * v == (q + 2 * k) * p + r by { assert (q + 2 * k) * p == q * p + 2 * (k * p); }
    DivModUnique(x + (p * (2 * s)) * v, p, q + 2 * k, r);
  }

  lemma Regroup(p: int, s: int, v: int)
    ensures (p * (2 * s)) * v == 2 * ((s * v) * p)
  {
    calc {
      (p * (2 * s)) * v;
      ((2 * s) * p) * v;
      (2 * (s * p)) * v;
      2 * ((s * p) * v);
      2 * ((s * v) * p);
    }
  }

  lemma BitHigh(x: int, v: int, w: nat, n: nat)
    requires 0 <= x < Pow2(w)
    ensures BitOf(x + Pow2(w) * v, w + n) == BitOf(v, n)
  {
    Pow2Add(w, n);
    BitHighArith(x, v, Pow2(w), Pow2(n));
  }

  lemma BitHighArith(x: int, v: int, p: nat, s: nat)
    requires 0 <= x < p && 0 < s && 0 < p * s
    ensures (x + p * v) / (p * s) == v / s
  {
    var q, r := v / s, v % s;
    assert v == s * q + r;
    SplitTop(p, s, q, r);
    ValTop(x, r, p, s);
    DivModUnique(x + p * v, p * s, q, x + p * r);
  }

  lemma SplitTop(p: int, s: int, q: int, r: int)
    ensures p * (s * q + r) == q * (p * s) + p * r
  {
    assert p * (s * q) == (p * s) * q;
  }

  /** A number below 2^n is determined by its n low bits. */
  lemma {:induction false} SameBits(u: nat, v: nat, n: nat)
    requires u < Pow2(n) && v < Pow2(n) && forall b: nat | b < n :: BitOf(u, b) == BitOf(v, b)
    ensures u == v
    decreases n
  {
    if n > 0 {
      var p := Pow2(n - 1);
      ModPow2Step(u, n - 1);
      ModPow2Step(v, n - 1);
      DivModUnique(u, 2 * p, 0, u);
      DivModUnique(v, 2 * p, 0, v);
      CongMod(u, p);
      CongMod(v, p);
      forall b: nat | b < n - 1 ensures BitOf(u % p, b) == BitOf(v % p, b) {
        ModKeepsBit(u, n - 1, b);
        ModKeepsBit(v, n - 1, b);
        assert BitOf(u, b) == BitOf(v, b);
      }
      SameBits(u % p, v % p, n - 1);
      assert BitOf(u, n - 1) == BitOf(v, n - 1);
    }
  }

  lemma ModKeepsBit(u: int, n: nat, b: nat)
    requires b < n
    ensures BitOf(u % Pow2(n), b) == BitOf(u, b)
  {
    assert u == u % Pow2(n) + Pow2(n) * (u / Pow2(n));
    BitLow(u % Pow2(n), u / Pow2(n), n, b);
  }
}
