/** ML-DSA's fixed-width field layouts. Each group formula writes the digits of one number in
    base 256, so packing is the change of base of section 7.1 of FIPS 204 (BitPack). */
module MlDsaPacking {
  import opened ModArith
  import opened Radix
  import opened MlDsaParams

  // ------------------------------------------------------------ the loops

  ghost predicate Packs(group: seq<int> -> seq<int>, n: nat, w: nat) {
    forall g: seq<int> | |g| == n && Digits(g, Pow2(w)) :: SameNumber(g, w, group(g))
  }

  ghost predicate Unpacks(group: seq<int> -> seq<int>, n: nat, w: nat) {
    forall s: seq<int> | |s| == n && Digits(s, 256) :: SameNumber(group(s), w, s)
  }

  lemma SameEmpty(w: nat)
    ensures SameNumber([], w, [])
  {
    assert w * 0 == 0;
  }

  /** Fields to bytes, n fields a group. */
  method PackGroups(f: seq<int>, n: nat, w: nat, bytes: nat, group: seq<int> -> seq<int>) returns (r: seq<int>)
    requires 0 < n && |f| % n == 0 && Digits(f, Pow2(w)) && w * |f| == 8 * bytes && Packs(group, n, w)
    ensures r == PackBits(f, w, bytes)
  {
    hide Pow2, SameNumber, Digits;
    r := [];
    SameEmpty(w);
    var i := 0;
    while i < |f|
      invariant 0 <= i <= |f| && i % n == 0 && SameNumber(f[..i], w, r)
    {
      NextGroup(i, |f|, n);
      DigitsSlice(f, i, i + n, Pow2(w));
      SameAppend(f[..i], r, f[i..i + n], group(f[i..i + n]), w);
      assert f[..i + n] == f[..i] + f[i..i + n];
      r := r + group(f[i..i + n]);
      i := i + n;
    }
    assert f[..i] == f;
    SameLengths(f, r, w, bytes);
    SameIsPack(f, r, w);
  }

  lemma NextGroup(i: nat, m: nat, n: nat)
    requires 0 < n && i < m && i % n == 0 && m % n == 0
    ensures i + n <= m && (i + n) % n == 0
  {
    var p, q := i / n, m / n;
    assert i == n * p && m == n * q;
    if q <= p { MulMono(q, p, n); }
    MulMono(p + 1, q, n);
    assert i + n == (p + 1) * n;
    DivModUnique(i + n, n, p + 1, 0);
  }

  lemma DigitsSlice(f: seq<int>, i: nat, j: nat, b: nat)
    requires i <= j <= |f| && Digits(f, b)
    ensures Digits(f[i..j], b)
  {
  }

  lemma SameLengths(f: seq<int>, r: seq<int>, w: nat, bytes: nat)
    requires SameNumber(f, w, r) && w * |f| == 8 * bytes
    ensures |r| == bytes
  {
  }

  /** Bytes to fields, n bytes a group. */
  method UnpackGroups(s: seq<int>, n: nat, w: nat, fields: nat, group: seq<int> -> seq<int>) returns (f: seq<int>)
    requires 0 < n && |s| % n == 0 && Digits(s, 256) && 0 < w && w * fields == 8 * |s| && Unpacks(group, n, w)
    ensures f == UnpackBits(s, w, fields)
  {
    hide Pow2, SameNumber, Digits;
    f := [];
    SameEmpty(w);
    var i := 0;
    while i < |s|
      invariant 0 <= i <= |s| && i % n == 0 && SameNumber(f, w, s[..i])
    {
      NextGroup(i, |s|, n);
      DigitsSlice(s, i, i + n, 256);
      SameAppend(f, s[..i], group(s[i..i + n]), s[i..i + n], w);
      assert s[..i + n] == s[..i] + s[i..i + n];
      f := f + group(s[i..i + n]);
      i := i + n;
    }
    assert s[..i] == s;
    SameFields(f, s, w, fields);
    SameIsPack(f, s, w);
  }

  lemma SameFields(f: seq<int>, r: seq<int>, w: nat, fields: nat)
    requires SameNumber(f, w, r) && 0 < w && w * fields == 8 * |r|
    ensures |f| == fields
  {
    if |f| < fields { MulMono(|f| + 1, fields, w); } else if fields < |f| { MulMono(fields + 1, |f|, w); }
  }

  /** One step of Horner's rule, from place k. */
  lemma ValFrom(d: seq<int>, b: nat, k: nat)
    requires k < |d|
    ensures Val(d[k..], b) == d[k] + b * Val(d[k + 1..], b)
  {
    assert d[k..][1..] == d[k + 1..];
  }

  lemma Val0(d: seq<int>, b: nat)
    ensures Val(d[|d|..], b) == 0 && d[0..] == d
  {
  }

  /** The rest of Horner's rule after the first four digits. */
  lemma ValFour(d: seq<int>, b: nat, k: nat)
    requires k + 4 <= |d|
    ensures Val(d[k..], b) == d[k] + b * (d[k + 1] + b * (d[k + 2] + b * (d[k + 3] + b * Val(d[k + 4..], b))))
  {
    hide Val;
    ValFrom(d, b, k); ValFrom(d, b, k + 1); ValFrom(d, b, k + 2); ValFrom(d, b, k + 3);
  }

  function Eight(d0: int, d1: int, d2: int, d3: int, d4: int, d5: int, d6: int, d7: int, b: int): int {
    d0 + b * (d1 + b * (d2 + b * (d3 + b * (d4 + b * (d5 + b * (d6 + b * (d7)))))))
  }

  function Thirteen(d0: int, d1: int, d2: int, d3: int, d4: int, d5: int, d6: int,
      d7: int, d8: int, d9: int, d10: int, d11: int, d12: int, b: int): int {
    d0 + b * (d1 + b * (d2 + b * (d3 + b * (d4 +
      b * (d5 + b * (d6 + b * (d7 + b * (d8 + b * (d9 + b * (d10 + b * (d11 + b * (d12))))))))))))
  }

  lemma Val8(d: seq<int>, b: nat)
    requires |d| == 8
    ensures Val(d, b) == Eight(d[0], d[1], d[2], d[3], d[4], d[5], d[6], d[7], b)
  {
    hide Val;
    Val0(d, b); ValFour(d, b, 0); ValFour(d, b, 4);
  }

  lemma Val13(d: seq<int>, b: nat)
    requires |d| == 13
    ensures Val(d, b) ==
      Thirteen(d[0], d[1], d[2], d[3], d[4], d[5], d[6], d[7], d[8], d[9], d[10], d[11], d[12], b)
  {
    hide Val;
    Val0(d, b); ValFour(d, b, 0); ValFour(d, b, 4); ValFour(d, b, 8); ValFrom(d, b, 12);
  }

  // ------------------------------------------------------------ shifts and masks

  /** x & (n - 1), or a cast to a narrower word. */
  function Low(x: int, n: nat): (r: int)
    requires 0 < n
    ensures 0 <= r < n
  {
    x % n
  }

  /** x >> log2 n. */
  function High(x: int, n: nat): (r: int)
    requires 0 < n
  {
    x / n
  }

  lemma Cut(t: int, n: nat)
    requires 0 < n
    ensures t == n * High(t, n) + Low(t, n)
  {
  }

  lemma Whole(t: int, n: nat)
    requires 0 <= t < n
    ensures Low(t, n) == t
  {
    DivModUnique(t, n, 0, t);
  }

  /** A field shifted up behind h low bits, then masked. */
  lemma Cast(h: int, t: int, m: nat, n: nat)
    requires 0 <= h < m && 0 < n
    ensures 0 < m * n && Low(h + t * m, m * n) == h + m * Low(t, n)
  {
    MulLower(m, n);
    Cut(t, n);
    var q, r := t / n, t % n;
    CastArith(t, m, n, q, r);
    ValTop(h, r, m, n);
    DivModUnique(h + t * m, m * n, q, h + m * r);
  }

  lemma CastArith(t: int, m: int, n: int, q: int, r: int)
    requires t == n * q + r
    ensures t * m == q * (m * n) + m * r
  {
    assert (n * q) * m == q * (m * n);
  }

  /** Shifts compose. */
  lemma Nested(t: int, m: nat, n: nat)
    requires 0 < m && 0 < n
    ensures 0 < m * n && High(t, m * n) == High(High(t, m), n)
  {
    MulLower(m, n);
    Cut(t, m);
    var q, r := (t / m) / n, (t / m) % n;
    Cut(t / m, n);
    SplitTop(m, n, q, r);
    ValTop(t % m, r, m, n);
    DivModUnique(t, m * n, q, t % m + m * r);
  }

  // ------------------------------------------------------------ t1: 10 bits

  function T1Bytes(a: seq<int>): seq<int> {
    if |a| != 4 then [] else [
      Low(a[0], 256), Low(High(a[0], 256) + a[1] * 4, 256), Low(High(a[1], 64) + a[2] * 16, 256),
      Low(High(a[2], 16) + a[3] * 64, 256), Low(High(a[3], 4), 256)]
  }

  lemma T1BytesArith(a: int, b: int, c: int, d: int)
    requires 0 <= a < 1024 && 0 <= b < 1024 && 0 <= c < 1024 && 0 <= d < 1024
    ensures a + 1024 * (b + 1024 * (c + 1024 * (d))) ==
      Low(a, 256) + 256 * (Low(High(a, 256) + b * 4, 256) + 256 * (Low(High(b, 64) + c * 16, 256) +
      256 * (Low(High(c, 16) + d * 64, 256) + 256 * (Low(High(d, 4), 256)))))
  {
    hide Low, High;
    Cut(a, 256); Cast(High(a, 256), b, 4, 64);
    Cut(b, 64); Cast(High(b, 64), c, 16, 16);
    Cut(c, 16); Cast(High(c, 16), d, 64, 4);
    Cut(d, 4); Whole(High(d, 4), 256);
  }

  lemma T1BytesSame(a: seq<int>)
    requires |a| == 4 && Digits(a, 1024)
    ensures SameNumber(a, 10, T1Bytes(a))
  {
    hide Val, Pow2, Low, High;
    var r := T1Bytes(a);
    Pow2Values();
    Val0(a, 1024); ValFour(a, 1024, 0);
    Val0(r, 256); ValFour(r, 256, 0); ValFrom(r, 256, 4);
    T1BytesArith(a[0], a[1], a[2], a[3]);
  }

  function T1Fields(s: seq<int>): seq<int> {
    if |s| != 5 then [] else [
      Low(s[0] + s[1] * 256, 1024), Low(High(s[1], 4) + s[2] * 64, 1024),
      Low(High(s[2], 16) + s[3] * 16, 1024), Low(High(s[3], 64) + s[4] * 4, 1024)]
  }

  lemma T1FieldsArith(x0: int, x1: int, x2: int, x3: int, x4: int)
    requires 0 <= x0 < 256 && 0 <= x1 < 256 && 0 <= x2 < 256 && 0 <= x3 < 256 && 0 <= x4 < 256
    ensures Low(x0 + x1 * 256, 1024) + 1024 * (Low(High(x1, 4) + x2 * 64, 1024) + 1024 * (Low(High(x2, 16) +
      x3 * 16, 1024) + 1024 * (Low(High(x3, 64) + x4 * 4, 1024)))) ==
      x0 + 256 * (x1 + 256 * (x2 + 256 * (x3 + 256 * (x4))))
  {
    hide Low, High;
    Cast(x0, x1, 256, 4); Cut(x1, 4);
    Cast(High(x1, 4), x2, 64, 16); Cut(x2, 16);
    Cast(High(x2, 16), x3, 16, 64); Cut(x3, 64);
    Cast(High(x3, 64), x4, 4, 256); Whole(x4, 256);
  }

  lemma T1FieldsSame(s: seq<int>)
    requires |s| == 5 && Digits(s, 256)
    ensures SameNumber(T1Fields(s), 10, s)
  {
    hide Val, Pow2, Low, High;
    var f := T1Fields(s);
    Pow2Values();
    Val0(f, 1024); ValFour(f, 1024, 0);
    Val0(s, 256); ValFour(s, 256, 0); ValFrom(s, 256, 4);
    T1FieldsArith(s[0], s[1], s[2], s[3], s[4]);
  }

  // ------------------------------------------------------------ t0: 13 bits

  function T0Bytes(a: seq<int>): seq<int> {
    if |a| != 8 then [] else [
      Low(a[0], 256), Low(High(a[0], 256) + a[1] * 32, 256), Low(High(a[1], 8), 256),
      Low(High(a[1], 2048) + a[2] * 4, 256), Low(High(a[2], 64) + a[3] * 128, 256), Low(High(a[3], 2), 256),
      Low(High(a[3], 512) + a[4] * 16, 256), Low(High(a[4], 16), 256), Low(High(a[4], 4096) + a[5] * 2, 256),
      Low(High(a[5], 128) + a[6] * 64, 256), Low(High(a[6], 4), 256), Low(High(a[6], 1024) + a[7] * 8, 256),
      Low(High(a[7], 32), 256)]
  }

  lemma T0BytesArith(a: int, b: int, c: int, d: int, e: int, f: int, g: int, h: int)
    requires 0 <= a < 8192 && 0 <= b < 8192 && 0 <= c < 8192 && 0 <= d < 8192
    requires 0 <= e < 8192 && 0 <= f < 8192 && 0 <= g < 8192 && 0 <= h < 8192
    ensures Eight(a, b, c, d, e, f, g, h, 8192) == Thirteen(
        Low(a, 256), Low(High(a, 256) + b * 32, 256), Low(High(b, 8), 256), Low(High(b, 2048) + c * 4, 256),
        Low(High(c, 64) + d * 128, 256), Low(High(d, 2), 256), Low(High(d, 512) + e * 16, 256),
        Low(High(e, 16), 256), Low(High(e, 4096) + f * 2, 256), Low(High(f, 128) + g * 64, 256),
        Low(High(g, 4), 256), Low(High(g, 1024) + h * 8, 256), Low(High(h, 32), 256), 256)
  {
    hide Low, High;
    Cut(a, 256); Cast(High(a, 256), b, 32, 8);
    Cut(b, 8); Cut(High(b, 8), 256); Nested(b, 8, 256); Cast(High(b, 2048), c, 4, 64);
    Cut(c, 64); Cast(High(c, 64), d, 128, 2);
    Cut(d, 2); Cut(High(d, 2), 256); Nested(d, 2, 256); Cast(High(d, 512), e, 16, 16);
    Cut(e, 16); Cut(High(e, 16), 256); Nested(e, 16, 256); Cast(High(e, 4096), f, 2, 128);
    Cut(f, 128); Cast(High(f, 128), g, 64, 4);
    Cut(g, 4); Cut(High(g, 4), 256); Nested(g, 4, 256); Cast(High(g, 1024), h, 8, 32);
    Cut(h, 32); Whole(High(h, 32), 256);
  }

  lemma T0Same(f: seq<int>, s: seq<int>)
    requires |f| == 8 && |s| == 13 && Digits(f, 8192) && Digits(s, 256)
    requires Eight(f[0], f[1], f[2], f[3], f[4], f[5], f[6], f[7], 8192) ==
      Thirteen(s[0], s[1], s[2], s[3], s[4], s[5], s[6], s[7], s[8], s[9], s[10], s[11], s[12], 256)
    ensures SameNumber(f, 13, s)
  {
    hide Val, Pow2, Eight, Thirteen;
    Pow2Values();
    Val8(f, 8192);
    Val13(s, 256);
  }

  lemma T0BytesSame(a: seq<int>)
    requires |a| == 8 && Digits(a, 8192)
    ensures SameNumber(a, 13, T0Bytes(a))
  {
    hide Low, High, Eight, Thirteen;
    var r := T0Bytes(a);
    T0BytesArith(a[0], a[1], a[2], a[3], a[4], a[5], a[6], a[7]);
    T0Same(a, r);
  }

  function T0Fields(s: seq<int>): seq<int> {
    if |s| != 13 then [] else [
      Low(s[0] + s[1] * 256, 8192), Low(High(s[1], 32) + s[2] * 8 + s[3] * 2048, 8192),
      Low(High(s[3], 4) + s[4] * 64, 8192), Low(High(s[4], 128) + s[5] * 2 + s[6] * 512, 8192),
      Low(High(s[6], 16) + s[7] * 16 + s[8] * 4096, 8192), Low(High(s[8], 2) + s[9] * 128, 8192),
      Low(High(s[9], 64) + s[10] * 4 + s[11] * 1024, 8192), Low(High(s[11], 8) + s[12] * 32, 8192)]
  }

  lemma T0FieldsParts(x0: int, x1: int, x2: int, x3: int, x4: int, x5: int, x6: int,
      x7: int, x8: int, x9: int, x10: int, x11: int, x12: int)
    requires 0 <= x0 < 256 && 0 <= x1 < 256 && 0 <= x2 < 256
    requires 0 <= x3 < 256 && 0 <= x4 < 256 && 0 <= x5 < 256 && 0 <= x6 < 256
    requires 0 <= x7 < 256 && 0 <= x8 < 256 && 0 <= x9 < 256 && 0 <= x10 < 256 && 0 <= x11 < 256 && 0 <= x12 < 256
    ensures Low(x0 + x1 * 256, 8192) == x0 + 256 * Low(x1, 32)
    ensures Low(High(x1, 32) + x2 * 8 + x3 * 2048, 8192) == High(x1, 32) + x2 * 8 + 2048 * Low(x3, 4)
    ensures Low(High(x3, 4) + x4 * 64, 8192) == High(x3, 4) + 64 * Low(x4, 128)
    ensures Low(High(x4, 128) + x5 * 2 + x6 * 512, 8192) == High(x4, 128) + x5 * 2 + 512 * Low(x6, 16)
    ensures Low(High(x6, 16) + x7 * 16 + x8 * 4096, 8192) == High(x6, 16) + x7 * 16 + 4096 * Low(x8, 2)
    ensures Low(High(x8, 2) + x9 * 128, 8192) == High(x8, 2) + 128 * Low(x9, 64)
    ensures Low(High(x9, 64) + x10 * 4 + x11 * 1024, 8192) == High(x9, 64) + x10 * 4 + 1024 * Low(x11, 8)
    ensures Low(High(x11, 8) + x12 * 32, 8192) == High(x11, 8) + 32 * x12
  {
    hide Low, High;
    Cast(x0, x1, 256, 32); Cut(x1, 32);
    Cast(High(x1, 32) + x2 * 8, x3, 2048, 4); Cut(x3, 4);
    Cast(High(x3, 4), x4, 64, 128); Cut(x4, 128);
    Cast(High(x4, 128) + x5 * 2, x6, 512, 16); Cut(x6, 16);
    Cast(High(x6, 16) + x7 * 16, x8, 4096, 2); Cut(x8, 2);
    Cast(High(x8, 2), x9, 128, 64); Cut(x9, 64);
    Cast(High(x9, 64) + x10 * 4, x11, 1024, 8); Cut(x11, 8);
    Cast(High(x11, 8), x12, 32, 256); Whole(x12, 256);
  }

  lemma T0FieldsArith(x0: int, x1: int, x2: int, x3: int, x4: int, x5: int, x6: int,
      x7: int, x8: int, x9: int, x10: int, x11: int, x12: int)
    requires 0 <= x0 < 256 && 0 <= x1 < 256 && 0 <= x2 < 256 && 0 <= x3 < 256 && 0 <= x4 < 256 && 0 <= x5 < 256
    requires 0 <= x6 < 256 && 0 <= x7 < 256 && 0 <= x8 < 256 && 0 <= x9 < 256 && 0 <= x10 < 256 && 0 <= x11 < 256
    requires 0 <= x12 < 256
    ensures Eight(
        Low(x0 + x1 * 256, 8192), Low(High(x1, 32) + x2 * 8 + x3 * 2048, 8192),
        Low(High(x3, 4) + x4 * 64, 8192), Low(High(x4, 128) + x5 * 2 + x6 * 512, 8192),
        Low(High(x6, 16) + x7 * 16 + x8 * 4096, 8192), Low(High(x8, 2) + x9 * 128, 8192),
        Low(High(x9, 64) + x10 * 4 + x11 * 1024, 8192), Low(High(x11, 8) + x12 * 32, 8192), 8192)
      == Thirteen(x0, x1, x2, x3, x4, x5, x6, x7, x8, x9, x10, x11, x12, 256)
  {
    hide Low, High;
    T0FieldsParts(x0, x1, x2, x3, x4, x5, x6, x7, x8, x9, x10, x11, x12);
    Cut(x1, 32); Cut(x3, 4); Cut(x4, 128); Cut(x6, 16); Cut(x8, 2); Cut(x9, 64); Cut(x11, 8);
  }

  lemma T0FieldsSame(s: seq<int>)
    requires |s| == 13 && Digits(s, 256)
    ensures SameNumber(T0Fields(s), 13, s)
  {
    hide Low, High, Eight, Thirteen;
    var f := T0Fields(s);
    T0FieldsArith(s[0], s[1], s[2], s[3], s[4], s[5], s[6], s[7], s[8], s[9], s[10], s[11], s[12]);
    T0Same(f, s);
  }

  // ------------------------------------------------------------ s1 and s2: 3 bits

  function Eta3Bytes(a: seq<int>): seq<int> {
    if |a| != 8 then [] else [
      Low(a[0] + a[1] * 8 + a[2] * 64, 256), Low(High(a[2], 4) + a[3] * 2 + a[4] * 16 + a[5] * 128, 256),
      Low(High(a[5], 2) + a[6] * 4 + a[7] * 32, 256)]
  }

  lemma Eta3BytesArith(a: int, b: int, c: int, d: int, e: int, f: int, g: int, h: int)
    requires 0 <= a < 8 && 0 <= b < 8 && 0 <= c < 8 && 0 <= d < 8
    requires 0 <= e < 8 && 0 <= f < 8 && 0 <= g < 8 && 0 <= h < 8
    ensures a + 8 * (b + 8 * (c + 8 * (d + 8 * (e + 8 * (f + 8 * (g + 8 * (h))))))) ==
      Low(a + b * 8 + c * 64, 256) + 256 * (Low(High(c, 4) + d * 2 + e * 16 + f * 128, 256) +
      256 * (Low(High(f, 2) + g * 4 + h * 32, 256)))
  {
    hide Low, High;
    Cast(a + b * 8, c, 64, 4); Cut(c, 4);
    Cast(High(c, 4) + d * 2 + e * 16, f, 128, 2); Cut(f, 2);
    Cast(High(f, 2) + g * 4, h, 32, 8); Whole(h, 8);
  }

  lemma Eta3BytesSame(a: seq<int>)
    requires |a| == 8 && Digits(a, 8)
    ensures SameNumber(a, 3, Eta3Bytes(a))
  {
    hide Val, Pow2, Low, High;
    var r := Eta3Bytes(a);
    Pow2Values();
    Val8(a, 8);
    Val0(r, 256); ValFrom(r, 256, 0); ValFrom(r, 256, 1); ValFrom(r, 256, 2);
    Eta3BytesArith(a[0], a[1], a[2], a[3], a[4], a[5], a[6], a[7]);
  }

  function Eta3Fields(s: seq<int>): seq<int> {
    if |s| != 3 then [] else [
      Low(s[0], 8), Low(High(s[0], 8), 8), Low(High(s[0], 64) + s[1] * 4, 8), Low(High(s[1], 2), 8),
      Low(High(s[1], 16), 8), Low(High(s[1], 128) + s[2] * 2, 8), Low(High(s[2], 4), 8), Low(High(s[2], 32), 8)]
  }

  lemma Eta3FieldsArith(x0: int, x1: int, x2: int)
    requires 0 <= x0 < 256 && 0 <= x1 < 256 && 0 <= x2 < 256
    ensures Low(x0, 8) + 8 * (Low(High(x0, 8), 8) + 8 * (Low(High(x0, 64) + x1 * 4, 8) + 8 * (Low(High(x1, 2), 8) +
      8 * (Low(High(x1, 16), 8) + 8 * (Low(High(x1, 128) + x2 * 2, 8) + 8 * (Low(High(x2, 4), 8) +
      8 * (Low(High(x2, 32), 8)))))))) ==
      x0 + 256 * (x1 + 256 * (x2))
  {
    hide Low, High;
    Cut(x0, 8); Cut(High(x0, 8), 8); Nested(x0, 8, 8); Cast(High(x0, 64), x1, 4, 2); Cut(x1, 2);
    Cut(High(x1, 2), 8); Nested(x1, 2, 8); Cut(High(x1, 16), 8); Nested(x1, 16, 8); Cast(High(x1, 128), x2, 2, 4);
    Cut(x2, 4); Cut(High(x2, 4), 8); Nested(x2, 4, 8); Whole(High(x2, 32), 8);
  }

  lemma Eta3FieldsSame(s: seq<int>)
    requires |s| == 3 && Digits(s, 256)
    ensures SameNumber(Eta3Fields(s), 3, s)
  {
    hide Val, Pow2, Low, High;
    var f := Eta3Fields(s);
    Pow2Values();
    Val8(f, 8);
    Val0(s, 256); ValFrom(s, 256, 0); ValFrom(s, 256, 1); ValFrom(s, 256, 2);
    Eta3FieldsArith(s[0], s[1], s[2]);
  }

  // ------------------------------------------------------------ s1 and s2, and w1: 4 bits

  function NibbleBytes(a: seq<int>): seq<int> {
    if |a| != 2 then [] else [
      Low(a[0] + a[1] * 16, 256)]
  }

  lemma NibbleBytesArith(a: int, b: int)
    requires 0 <= a < 16 && 0 <= b < 16
    ensures a + 16 * (b) ==
      Low(a + b * 16, 256)
  {
    hide Low, High;
    Cast(a, b, 16, 16); Whole(b, 16);
  }

  lemma NibbleBytesSame(a: seq<int>)
    requires |a| == 2 && Digits(a, 16)
    ensures SameNumber(a, 4, NibbleBytes(a))
  {
    hide Val, Pow2, Low, High;
    var r := NibbleBytes(a);
    Pow2Values();
    Val0(a, 16); ValFrom(a, 16, 0); ValFrom(a, 16, 1);
    Val0(r, 256); ValFrom(r, 256, 0);
    NibbleBytesArith(a[0], a[1]);
  }

  function NibbleFields(s: seq<int>): seq<int> {
    if |s| != 1 then [] else [
      Low(s[0], 16), High(s[0], 16)]
  }

  lemma NibbleFieldsArith(x0: int)
    requires 0 <= x0 < 256
    ensures Low(x0, 16) + 16 * (High(x0, 16)) ==
      x0
  {
    hide Low, High;
    Cut(x0, 16);
  }

  lemma NibbleFieldsSame(s: seq<int>)
    requires |s| == 1 && Digits(s, 256)
    ensures SameNumber(NibbleFields(s), 4, s)
  {
    hide Val, Pow2, Low, High;
    var f := NibbleFields(s);
    Pow2Values();
    Val0(f, 16); ValFrom(f, 16, 0); ValFrom(f, 16, 1);
    Val0(s, 256); ValFrom(s, 256, 0);
    NibbleFieldsArith(s[0]);
  }

  // ------------------------------------------------------------ z: 18 bits

  function Z18Bytes(a: seq<int>): seq<int> {
    if |a| != 4 then [] else [
      Low(a[0], 256), Low(High(a[0], 256), 256), Low(High(a[0], 65536) + a[1] * 4, 256),
      Low(High(a[1], 64), 256), Low(High(a[1], 16384) + a[2] * 16, 256), Low(High(a[2], 16), 256),
      Low(High(a[2], 4096) + a[3] * 64, 256), Low(High(a[3], 4), 256), Low(High(a[3], 1024), 256)]
  }

  lemma Z18BytesArith(a: int, b: int, c: int, d: int)
    requires 0 <= a < 262144 && 0 <= b < 262144 && 0 <= c < 262144 && 0 <= d < 262144
    ensures a + 262144 * (b + 262144 * (c + 262144 * (d))) ==
      Low(a, 256) + 256 * (Low(High(a, 256), 256) + 256 * (Low(High(a, 65536) + b * 4, 256) +
      256 * (Low(High(b, 64), 256) + 256 * (Low(High(b, 16384) + c * 16, 256) + 256 * (Low(High(c, 16), 256) +
      256 * (Low(High(c, 4096) + d * 64, 256) + 256 * (Low(High(d, 4), 256) +
      256 * (Low(High(d, 1024), 256)))))))))
  {
    hide Low, High;
    Cut(a, 256); Cut(High(a, 256), 256); Nested(a, 256, 256); Cast(High(a, 65536), b, 4, 64);
    Cut(b, 64); Cut(High(b, 64), 256); Nested(b, 64, 256); Cast(High(b, 16384), c, 16, 16);
    Cut(c, 16); Cut(High(c, 16), 256); Nested(c, 16, 256); Cast(High(c, 4096), d, 64, 4);
    Cut(d, 4); Cut(High(d, 4), 256); Nested(d, 4, 256); Whole(High(d, 1024), 256);
  }

  lemma Z18BytesSame(a: seq<int>)
    requires |a| == 4 && Digits(a, 262144)
    ensures SameNumber(a, 18, Z18Bytes(a))
  {
    hide Val, Pow2, Low, High;
    var r := Z18Bytes(a);
    Pow2Values();
    Val0(a, 262144); ValFour(a, 262144, 0);
    Val0(r, 256); ValFour(r, 256, 0); ValFour(r, 256, 4); ValFrom(r, 256, 8);
    Z18BytesArith(a[0], a[1], a[2], a[3]);
  }

  function Z18Fields(s: seq<int>): seq<int> {
    if |s| != 9 then [] else [
      Low(s[0] + s[1] * 256 + s[2] * 65536, 262144), Low(High(s[2], 4) + s[3] * 64 + s[4] * 16384, 262144),
      Low(High(s[4], 16) + s[5] * 16 + s[6] * 4096, 262144),
      Low(High(s[6], 64) + s[7] * 4 + s[8] * 1024, 262144)]
  }

  lemma Z18FieldsArith(x0: int, x1: int, x2: int, x3: int, x4: int, x5: int, x6: int,
      x7: int, x8: int)
    requires 0 <= x0 < 256 && 0 <= x1 < 256 && 0 <= x2 < 256
    requires 0 <= x3 < 256 && 0 <= x4 < 256 && 0 <= x5 < 256 && 0 <= x6 < 256
    requires 0 <= x7 < 256 && 0 <= x8 < 256
    ensures Low(x0 + x1 * 256 + x2 * 65536, 262144) + 262144 * (Low(High(x2, 4) + x3 * 64 + x4 * 16384, 262144) +
      262144 * (Low(High(x4, 16) + x5 * 16 + x6 * 4096, 262144) + 262144 * (Low(High(x6, 64) + x7 * 4 +
      x8 * 1024, 262144)))) ==
      x0 + 256 * (x1 + 256 * (x2 + 256 * (x3 + 256 * (x4 + 256 * (x5 + 256 * (x6 + 256 * (x7 + 256 * (x8))))))))
  {
    hide Low, High;
    Cast(x0 + x1 * 256, x2, 65536, 4); Cut(x2, 4);
    Cast(High(x2, 4) + x3 * 64, x4, 16384, 16); Cut(x4, 16);
    Cast(High(x4, 16) + x5 * 16, x6, 4096, 64); Cut(x6, 64);
    Cast(High(x6, 64) + x7 * 4, x8, 1024, 256); Whole(x8, 256);
  }

  lemma Z18FieldsSame(s: seq<int>)
    requires |s| == 9 && Digits(s, 256)
    ensures SameNumber(Z18Fields(s), 18, s)
  {
    hide Val, Pow2, Low, High;
    var f := Z18Fields(s);
    Pow2Values();
    Val0(f, 262144); ValFour(f, 262144, 0);
    Val0(s, 256); ValFour(s, 256, 0); ValFour(s, 256, 4); ValFrom(s, 256, 8);
    Z18FieldsArith(s[0], s[1], s[2], s[3], s[4], s[5], s[6], s[7], s[8]);
  }

  // ------------------------------------------------------------ z: 20 bits

  function Z20Bytes(a: seq<int>): seq<int> {
    if |a| != 2 then [] else [
      Low(a[0], 256), Low(High(a[0], 256), 256), Low(High(a[0], 65536) + a[1] * 16, 256),
      Low(High(a[1], 16), 256), Low(High(a[1], 4096), 256)]
  }

  lemma Z20BytesArith(a: int, b: int)
    requires 0 <= a < 1048576 && 0 <= b < 1048576
    ensures a + 1048576 * (b) ==
      Low(a, 256) + 256 * (Low(High(a, 256), 256) + 256 * (Low(High(a, 65536) + b * 16, 256) +
      256 * (Low(High(b, 16), 256) + 256 * (Low(High(b, 4096), 256)))))
  {
    hide Low, High;
    Cut(a, 256); Cut(High(a, 256), 256); Nested(a, 256, 256); Cast(High(a, 65536), b, 16, 16);
    Cut(b, 16); Cut(High(b, 16), 256); Nested(b, 16, 256); Whole(High(b, 4096), 256);
  }

  lemma Z20BytesSame(a: seq<int>)
    requires |a| == 2 && Digits(a, 1048576)
    ensures SameNumber(a, 20, Z20Bytes(a))
  {
    hide Val, Pow2, Low, High;
    var r := Z20Bytes(a);
    Pow2Values();
    Val0(a, 1048576); ValFrom(a, 1048576, 0); ValFrom(a, 1048576, 1);
    Val0(r, 256); ValFour(r, 256, 0); ValFrom(r, 256, 4);
    Z20BytesArith(a[0], a[1]);
  }

  function Z20Fields(s: seq<int>): seq<int> {
    if |s| != 5 then [] else [
      Low(s[0] + s[1] * 256 + s[2] * 65536, 1048576), Low(High(s[2], 16) + s[3] * 16 + s[4] * 4096, 1048576)]
  }

  lemma Z20FieldsArith(x0: int, x1: int, x2: int, x3: int, x4: int)
    requires 0 <= x0 < 256 && 0 <= x1 < 256 && 0 <= x2 < 256 && 0 <= x3 < 256 && 0 <= x4 < 256
    ensures Low(x0 + x1 * 256 + x2 * 65536, 1048576) + 1048576 * (Low(High(x2, 16) + x3 * 16 + x4 * 4096, 1048576)) ==
      x0 + 256 * (x1 + 256 * (x2 + 256 * (x3 + 256 * (x4))))
  {
    hide Low, High;
    Cast(x0 + x1 * 256, x2, 65536, 16); Cut(x2, 16);
    Cast(High(x2, 16) + x3 * 16, x4, 4096, 256); Whole(x4, 256);
  }

  lemma Z20FieldsSame(s: seq<int>)
    requires |s| == 5 && Digits(s, 256)
    ensures SameNumber(Z20Fields(s), 20, s)
  {
    hide Val, Pow2, Low, High;
    var f := Z20Fields(s);
    Pow2Values();
    Val0(f, 1048576); ValFrom(f, 1048576, 0); ValFrom(f, 1048576, 1);
    Val0(s, 256); ValFour(s, 256, 0); ValFrom(s, 256, 4);
    Z20FieldsArith(s[0], s[1], s[2], s[3], s[4]);
  }

  // ------------------------------------------------------------ w1: 6 bits

  function W6Bytes(a: seq<int>): seq<int> {
    if |a| != 4 then [] else [
      Low(a[0] + a[1] * 64, 256), Low(High(a[1], 4) + a[2] * 16, 256), Low(High(a[2], 16) + a[3] * 4, 256)]
  }

  lemma W6BytesArith(a: int, b: int, c: int, d: int)
    requires 0 <= a < 64 && 0 <= b < 64 && 0 <= c < 64 && 0 <= d < 64
    ensures a + 64 * (b + 64 * (c + 64 * (d))) ==
      Low(a + b * 64, 256) + 256 * (Low(High(b, 4) + c * 16, 256) + 256 * (Low(High(c, 16) + d * 4, 256)))
  {
    hide Low, High;
    Cast(a, b, 64, 4); Cut(b, 4);
    Cast(High(b, 4), c, 16, 16); Cut(c, 16);
    Cast(High(c, 16), d, 4, 64); Whole(d, 64);
  }

  lemma W6BytesSame(a: seq<int>)
    requires |a| == 4 && Digits(a, 64)
    ensures SameNumber(a, 6, W6Bytes(a))
  {
    hide Val, Pow2, Low, High;
    var r := W6Bytes(a);
    Pow2Values();
    Val0(a, 64); ValFour(a, 64, 0);
    Val0(r, 256); ValFrom(r, 256, 0); ValFrom(r, 256, 1); ValFrom(r, 256, 2);
    W6BytesArith(a[0], a[1], a[2], a[3]);
  }

  // ------------------------------------------------------------ polynomials

  /** c - a, coefficient by coefficient: how signed values are stored. */
  function Offset(c: int, a: seq<int>): (r: seq<int>)
    ensures |r| == |a| && forall i | 0 <= i < |a| :: r[i] == c - a[i]
  {
    seq(|a|, i requires 0 <= i < |a| => c - a[i])
  }

  predicate InRange(a: seq<int>, lo: int, hi: int) { forall i | 0 <= i < |a| :: lo <= a[i] <= hi }

  lemma OffsetOffset(c: int, a: seq<int>)
    ensures Offset(c, Offset(c, a)) == a
  {
  }

  /** The stored form of a polynomial: BitPack of c - a, w bits a coefficient. */
  function StorePoly(a: seq<int>, c: int, w: nat): (r: seq<int>)
    ensures |r| == 32 * w && Digits(r, 256)
  {
    PackBits(Offset(c, a), w, 32 * w)
  }

  function LoadPoly(s: seq<int>, c: int, w: nat): (a: seq<int>)
    ensures |a| == N
  {
    Offset(c, UnpackBits(s, w, N))
  }

  /** A coefficient in (c - 2^w, c] survives the trip, and so does every byte string. */
  lemma LoadStore(a: seq<int>, c: int, w: nat)
    requires |a| == N && InRange(a, c - Pow2(w) + 1, c)
    ensures LoadPoly(StorePoly(a, c, w), c, w) == a
  {
    UnpackPack(Offset(c, a), w, 32 * w);
    OffsetOffset(c, a);
  }

  lemma StoreLoad(s: seq<int>, c: int, w: nat)
    requires |s| == 32 * w && Digits(s, 256)
    ensures StorePoly(LoadPoly(s, c, w), c, w) == s
    ensures InRange(LoadPoly(s, c, w), c - Pow2(w) + 1, c)
  {
    PackUnpack(s, w, N);
    OffsetOffset(c, UnpackBits(s, w, N));
  }

  method PolyT1Pack(a: seq<int>) returns (r: seq<int>)
    requires |a| == N && Digits(a, 1024)
    ensures r == PackBits(a, 10, 320)
  {
    Pow2Values();
    forall g: seq<int> | |g| == 4 && Digits(g, Pow2(10)) ensures SameNumber(g, 10, T1Bytes(g)) { T1BytesSame(g); }
    r := PackGroups(a, 4, 10, 320, T1Bytes);
  }

  method PolyT1Unpack(s: seq<int>) returns (a: seq<int>)
    requires |s| == 320 && Digits(s, 256)
    ensures a == UnpackBits(s, 10, N)
  {
    forall g: seq<int> | |g| == 5 && Digits(g, 256) ensures SameNumber(T1Fields(g), 10, g) { T1FieldsSame(g); }
    a := UnpackGroups(s, 5, 10, N, T1Fields);
  }

  method PolyT0Pack(a: seq<int>) returns (r: seq<int>)
    requires |a| == N && InRange(a, -4095, 4096)
    ensures r == StorePoly(a, 4096, 13)
  {
    Pow2Values();
    forall g: seq<int> | |g| == 8 && Digits(g, Pow2(13)) ensures SameNumber(g, 13, T0Bytes(g)) { T0BytesSame(g); }
    r := PackGroups(Offset(4096, a), 8, 13, 416, T0Bytes);
  }

  method PolyT0Unpack(s: seq<int>) returns (a: seq<int>)
    requires |s| == 416 && Digits(s, 256)
    ensures a == LoadPoly(s, 4096, 13)
  {
    forall g: seq<int> | |g| == 13 && Digits(g, 256) ensures SameNumber(T0Fields(g), 13, g) { T0FieldsSame(g); }
    var f := UnpackGroups(s, 13, 13, N, T0Fields);
    a := Offset(4096, f);
  }

  method PolyEtaPack(p: Params, a: seq<int>) returns (r: seq<int>)
    requires |a| == N && InRange(a, -(p.Eta() as int), p.Eta())
    ensures r == StorePoly(a, p.Eta(), p.EtaBits())
  {
    Pow2Values();
    if p.Eta() == 2 {
      forall g: seq<int> | |g| == 8 && Digits(g, Pow2(3)) ensures SameNumber(g, 3, Eta3Bytes(g)) { Eta3BytesSame(g); }
      r := PackGroups(Offset(2, a), 8, 3, 96, Eta3Bytes);
    } else {
      forall g: seq<int> | |g| == 2 && Digits(g, Pow2(4))
        ensures SameNumber(g, 4, NibbleBytes(g)) { NibbleBytesSame(g); }
      r := PackGroups(Offset(4, a), 2, 4, 128, NibbleBytes);
    }
  }

  method PolyEtaUnpack(p: Params, s: seq<int>) returns (a: seq<int>)
    requires |s| == p.EtaBytes() && Digits(s, 256)
    ensures a == LoadPoly(s, p.Eta(), p.EtaBits())
  {
    var f: seq<int>;
    if p.Eta() == 2 {
      forall g: seq<int> | |g| == 3 && Digits(g, 256) ensures SameNumber(Eta3Fields(g), 3, g) { Eta3FieldsSame(g); }
      f := UnpackGroups(s, 3, 3, N, Eta3Fields);
    } else {
      forall g: seq<int> | |g| == 1 && Digits(g, 256) ensures SameNumber(NibbleFields(g), 4, g) { NibbleFieldsSame(g); }
      f := UnpackGroups(s, 1, 4, N, NibbleFields);
    }
    a := Offset(p.Eta(), f);
  }

  method PolyZPack(p: Params, a: seq<int>) returns (r: seq<int>)
    requires |a| == N && InRange(a, 1 - p.Gamma1(), p.Gamma1())
    ensures r == StorePoly(a, p.Gamma1(), p.ZBits())
  {
    Pow2Values();
    if p.Gamma1() == 131072 {
      forall g: seq<int> | |g| == 4 && Digits(g, Pow2(18)) ensures SameNumber(g, 18, Z18Bytes(g)) { Z18BytesSame(g); }
      r := PackGroups(Offset(131072, a), 4, 18, 576, Z18Bytes);
    } else {
      forall g: seq<int> | |g| == 2 && Digits(g, Pow2(20)) ensures SameNumber(g, 20, Z20Bytes(g)) { Z20BytesSame(g); }
      r := PackGroups(Offset(524288, a), 2, 20, 640, Z20Bytes);
    }
  }

  method PolyZUnpack(p: Params, s: seq<int>) returns (a: seq<int>)
    requires |s| == p.ZBytes() && Digits(s, 256)
    ensures a == LoadPoly(s, p.Gamma1(), p.ZBits())
  {
    var f: seq<int>;
    if p.Gamma1() == 131072 {
      forall g: seq<int> | |g| == 9 && Digits(g, 256) ensures SameNumber(Z18Fields(g), 18, g) { Z18FieldsSame(g); }
      f := UnpackGroups(s, 9, 18, N, Z18Fields);
    } else {
      forall g: seq<int> | |g| == 5 && Digits(g, 256) ensures SameNumber(Z20Fields(g), 20, g) { Z20FieldsSame(g); }
      f := UnpackGroups(s, 5, 20, N, Z20Fields);
    }
    a := Offset(p.Gamma1(), f);
  }

  method PolyW1Pack(p: Params, a: seq<int>) returns (r: seq<int>)
    requires |a| == N && InRange(a, 0, if p.GammaDen() == 88 then 43 else 15)
    ensures r == PackBits(a, p.W1Bits(), p.W1Bytes())
  {
    Pow2Values();
    if p.GammaDen() == 88 {
      forall g: seq<int> | |g| == 4 && Digits(g, Pow2(6)) ensures SameNumber(g, 6, W6Bytes(g)) { W6BytesSame(g); }
      r := PackGroups(a, 4, 6, 192, W6Bytes);
    } else {
      forall g: seq<int> | |g| == 2 && Digits(g, Pow2(4))
        ensures SameNumber(g, 4, NibbleBytes(g)) { NibbleBytesSame(g); }
      r := PackGroups(a, 2, 4, 128, NibbleBytes);
    }
  }
}
