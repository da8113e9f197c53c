/** Integer facts shared by every module: quotient and remainder for a variable
    divisor, congruence modulo m, and powers of two. */
module ModArith {

  /** The quotient and the remainder are the only pair that fits. */
  lemma {:induction false} DivModUnique(x: int, m: int, q: int, r: int)
    requires 0 < m && 0 <= r < m && x == q * m + r
    ensures x / m == q && x % m == r
  {
    var d, e := x / m, x % m;
    assert x == m * d + e;
    assert m * (d - q) == r - e;
    if d - q >= 1 {
      MulLower(m, d - q);
    } else if d - q <= -1 {
      MulLower(m, q - d);
    }
  }

  lemma MulLower(m: int, k: int)
    requires 0 < m && 1 <= k
    ensures m <= m * k
  {
  }

  lemma MulMono(a: int, b: int, c: int)
    requires 0 <= c && a <= b
    ensures a * c <= b * c
  {
  }

  lemma ProductPositive(a: int, b: int, x: int, y: int)
    requires 0 <= a <= x && -y <= b <= y && 0 <= y
    ensures -(x * y) <= a * b <= x * y
  {
    MulMono(b, y, a);
    MulMono(-y, b, a);
    MulMono(a, x, y);
    assert (-y) * a == -(a * y) && b * a == a * b && y * a == a * y;
  }

  lemma ProductRange(a: int, b: int, x: int, y: int)
    requires -x <= a <= x && -y <= b <= y && 0 <= x && 0 <= y
    ensures -(x * y) <= a * b <= x * y
  {
    if a >= 0 { ProductPositive(a, b, x, y); } else {
      ProductPositive(-a, b, x, y);
      assert (-a) * b == -(a * b);
    }
  }

  /** a and b differ by a multiple of m. */
  ghost predicate Cong(a: int, b: int, m: int)
    requires 0 < m
  {
    (a - b) % m == 0
  }

  lemma {:induction false} CongIntro(a: int, b: int, m: int, k: int)
    requires 0 < m && a - b == k * m
    ensures Cong(a, b, m)
  {
    DivModUnique(a - b, m, k, 0);
  }

  lemma CongElim(a: int, b: int, m: int) returns (k: int)
    requires 0 < m && Cong(a, b, m)
    ensures a - b == k * m
  {
    k := (a - b) / m;
    assert a - b == m * k + (a - b) % m;
  }

  lemma CongRefl(a: int, m: int)
    requires 0 < m
    ensures Cong(a, a, m)
  {
    CongIntro(a, a, m, 0);
  }

  lemma CongSym(a: int, b: int, m: int)
    requires 0 < m && Cong(a, b, m)
    ensures Cong(b, a, m)
  {
    var k := CongElim(a, b, m);
    assert b - a == (-k) * m;
    CongIntro(b, a, m, -k);
  }

  lemma CongTrans(a: int, b: int, c: int, m: int)
    requires 0 < m && Cong(a, b, m) && Cong(b, c, m)
    ensures Cong(a, c, m)
  {
    var k := CongElim(a, b, m);
    var l := CongElim(b, c, m);
    assert a - c == (k + l) * m;
    CongIntro(a, c, m, k + l);
  }

  lemma CongAdd(a: int, b: int, c: int, d: int, m: int)
    requires 0 < m && Cong(a, b, m) && Cong(c, d, m)
    ensures Cong(a + c, b + d, m)
  {
    var k := CongElim(a, b, m);
    var l := CongElim(c, d, m);
    assert (a + c) - (b + d) == (k + l) * m;
    CongIntro(a + c, b + d, m, k + l);
  }

  lemma CongSub(a: int, b: int, c: int, d: int, m: int)
    requires 0 < m && Cong(a, b, m) && Cong(c, d, m)
    ensures Cong(a - c, b - d, m)
  {
    var k := CongElim(a, b, m);
    var l := CongElim(c, d, m);
    assert (a - c) - (b - d) == (k - l) * m;
    CongIntro(a - c, b - d, m, k - l);
  }

  lemma CongMul(a: int, b: int, c: int, d: int, m: int)
    requires 0 < m && Cong(a, b, m) && Cong(c, d, m)
    ensures Cong(a * c, b * d, m)
  {
    var k := CongElim(a, b, m);
    var l := CongElim(c, d, m);
    assert a == b + k * m && c == d + l * m;
    calc {
      a * c - b * d;
      (b + k * m) * c - b * d;
      b * c + k * m * c - b * d;
      b * (c - d) + k * m * c;
      b * (l * m) + k * m * c;
      { assert b * (l * m) == (b * l) * m; assert k * m * c == (k * c) * m; }
      (b * l + k * c) * m;
    }
    CongIntro(a * c, b * d, m, b * l + k * c);
  }

  lemma CongScale(s: int, a: int, b: int, m: int)
    requires 0 < m && Cong(a, b, m)
    ensures Cong(s * a, s * b, m)
  {
    CongRefl(s, m);
    CongMul(s, s, a, b, m);
  }

  lemma CongMod(a: int, m: int)
    requires 0 < m
    ensures 0 <= a % m < m && Cong(a, a % m, m) && Cong(a % m, a, m)
  {
    assert a == m * (a / m) + a % m;
    assert a - a % m == (a / m) * m;
    CongIntro(a, a % m, m, a / m);
    CongSym(a, a % m, m);
  }

  /** Two congruent numbers less than m apart are equal. */
  lemma CongUnique(a: int, b: int, m: int)
    requires 0 < m && Cong(a, b, m) && -m < a - b < m
    ensures a == b
  {
    var k := CongElim(a, b, m);
    if k >= 1 { MulLower(m, k); } else if k <= -1 { MulLower(m, -k); }
  }

  /** A canonical representative is the remainder. */
  lemma CongCanon(a: int, b: int, m: int)
    requires 0 < m && Cong(a, b, m) && 0 <= a < m
    ensures a == b % m
  {
    CongMod(b, m);
    CongTrans(a, b, b % m, m);
    CongUnique(a, b % m, m);
  }

  lemma CongSameMod(a: int, b: int, m: int)
    requires 0 < m && Cong(a, b, m)
    ensures a % m == b % m
  {
    CongMod(a, m);
    CongTrans(a % m, a, b, m);
    CongCanon(a % m, b, m);
  }

  // ------------------------------------------------------------ powers of two

  type int16 = x: int | -0x8000 <= x < 0x8000

  function Pow2(n: nat): (p: nat)
    ensures 1 <= p
  {
    if n == 0 then 1 else 2 * Pow2(n - 1)
  }

  lemma Pow2Double(n: nat)
    requires 0 < n
    ensures Pow2(n) == 2 * Pow2(n - 1)
  {
  }

  lemma {:induction false} Pow2Add(a: nat, b: nat)
    ensures Pow2(a + b) == Pow2(a) * Pow2(b)
    decreases a
  {
    if a > 0 {
      Pow2Add(a - 1, b);
      assert a + b - 1 == (a - 1) + b;
      assert 2 * (Pow2(a - 1) * Pow2(b)) == (2 * Pow2(a - 1)) * Pow2(b);
    }
  }

  lemma {:induction false} Pow2Mono(a: nat, b: nat)
    requires a <= b
    ensures Pow2(a) <= Pow2(b)
    decreases b
  {
    if a < b { Pow2Mono(a, b - 1); }
  }

  /** Bit b of v (two's complement when v is negative: the quotient is a floor). */
  predicate BitOf(v: int, b: nat) {
    (v / Pow2(b)) % 2 == 1
  }

  function B2I(b: bool): nat { if b then 1 else 0 }

  /** One more low bit: the remainder mod 2^(b+1) is the remainder mod 2^b plus bit b. */
  lemma ModPow2Step(v: int, b: nat)
    ensures v % Pow2(b + 1) == v % Pow2(b) + B2I(BitOf(v, b)) * Pow2(b)
  {
    var p := Pow2(b);
    var q, r := v / p, v % p;
    assert v == p * q + r;
    var k, t := q / 2, q % 2;
    assert q == 2 * k + t;
    assert p * q == p * (2 * k) + p * t;
    assert p * (2 * k) == k * (2 * p);
    assert 0 <= p * t <= p;
    DivModUnique(v, 2 * p, k, p * t + r);
  }

  lemma Pow2Values()
    ensures Pow2(1) == 2 && Pow2(2) == 4 && Pow2(3) == 8 && Pow2(4) == 16 && Pow2(5) == 32 && Pow2(6) == 64
    ensures Pow2(8) == 256 && Pow2(10) == 1024 && Pow2(11) == 2048 && Pow2(12) == 4096 && Pow2(13) == 8192
    ensures Pow2(14) == 16384 && Pow2(18) == 262144 && Pow2(20) == 1048576
    ensures Pow2(24) == 16777216 && Pow2(25) == 33554432
  {
    assert Pow2(4) == 16;
    assert Pow2(8) == 256;
    assert Pow2(12) == 4096;
    assert Pow2(16) == 65536;
    assert Pow2(20) == 1048576;
    assert Pow2(24) == 16777216;
  }
}
