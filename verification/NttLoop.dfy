/** The layered loops against the tree: an array in mid-transform is a row of blocks, the
    first ones already split (or merged) at the current level, the rest not yet. */
module NttLoop {
  import opened ModArith
  import opened NttTree

  lemma {:induction false} SizeIsProduct(base: nat, d: nat)
    ensures Size(base, d) == base * Pow2(d)
    decreases d
  {
    if d > 0 {
      SizeIsProduct(base, d - 1);
      assert 2 * (base * Pow2(d - 1)) == base * (2 * Pow2(d - 1));
    }
  }

  // ------------------------------------------------------------ forward

  /** n consecutive blocks, transformed at nodes k, k + 1, ... */
  function Forest(a: seq<int>, base: nat, d: nat, k: nat, n: nat, z: nat -> int): (r: seq<int>)
    requires |a| == n * Size(base, d)
    ensures |r| == |a|
    decreases n
  {
    if n == 0 then []
    else
      var s := Size(base, d);
      BlockFits(n, s);
      Forward(a[..s], base, d, k, z) + Forest(a[s..], base, d, k + 1, n - 1, z)
  }

  lemma BlockFits(n: nat, s: nat)
    requires 0 < n
    ensures n * s == s + (n - 1) * s && s <= n * s
  {
    assert 0 <= (n - 1) * s;
  }

  lemma {:induction false} ForestAppend(x: seq<int>, block: seq<int>, base: nat, d: nat, k: nat, n: nat, z: nat -> int)
    requires |x| == n * Size(base, d) && |block| == Size(base, d)
    ensures |x + block| == (n + 1) * Size(base, d)
    ensures Forest(x + block, base, d, k, n + 1, z) == Forest(x, base, d, k, n, z) + Forward(block, base, d, k + n, z)
    decreases n
  {
    hide Forward;
    var s := Size(base, d);
    BlockFits(n + 1, s);
    if n == 0 {
      assert x == [] && x + block == block && block[..s] == block && block[s..] == [];
    } else {
      BlockFits(n, s);
      ForestAppend(x[s..], block, base, d, k + 1, n - 1, z);
      assert (x + block)[..s] == x[..s] && (x + block)[s..] == x[s..] + block;
    }
  }

  /** At depth 0 nothing is left to do. */
  lemma {:induction false} ForestLeaves(a: seq<int>, base: nat, k: nat, n: nat, z: nat -> int)
    requires |a| == n * Size(base, 0)
    ensures Forest(a, base, 0, k, n, z) == a
    decreases n
  {
    if n > 0 {
      BlockFits(n, base);
      ForestLeaves(a[base..], base, k + 1, n - 1, z);
    }
  }

  /** What is left to do: `done` is already split at this level (2m blocks of half size from
      node 2w), `todo` is not (w - m blocks from node w + m). */
  ghost predicate Passing(done: seq<int>, todo: seq<int>, base: nat, d: nat, w: nat, m: nat, z: nat -> int,
      t: seq<int>, q: int) {
    0 < q && 0 < d && m <= w
    && |done| == (2 * m) * Size(base, d - 1) && |todo| == (w - m) * Size(base, d)
    && CongSeq(Forest(done, base, d - 1, 2 * w, 2 * m, z) + Forest(todo, base, d, w + m, w - m, z), t, q)
  }

  /** Splitting the next block keeps what is left to do. */
  lemma PassBlock(done: seq<int>, block: seq<int>, rest: seq<int>, lo: seq<int>, hi: seq<int>,
      base: nat, d: nat, w: nat, m: nat, z: nat -> int, t: seq<int>, q: int)
    requires Passing(done, block + rest, base, d, w, m, z, t, q) && m < w && |block| == Size(base, d)
    requires CongSeq(lo, Lower(block, z(w + m)), q) && CongSeq(hi, Upper(block, z(w + m)), q)
    ensures Passing(done + (lo + hi), rest, base, d, w, m + 1, z, t, q)
  {
    hide Forward, Lower, Upper, CongSeq, Forest;
    var h, s := Size(base, d - 1), Size(base, d);
    var k := w + m;
    CongSeqLength(lo, Lower(block, z(k)), q);
    CongSeqLength(hi, Upper(block, z(k)), q);
    assert |lo| == h && |hi| == h;
    BlockFits(w - m, s);
    BlockFits(2 * m + 1, h);
    BlockFits(2 * m + 2, h);
    ForestHead(block, rest, base, d, k, w - m, z);
    ForestAppend(done, lo, base, d - 1, 2 * w, 2 * m, z);
    ForestAppend(done + lo, hi, base, d - 1, 2 * w, 2 * m + 1, z);
    assert done + lo + hi == done + (lo + hi);
    var fl, fu := Forward(lo, base, d - 1, 2 * k, z), Forward(hi, base, d - 1, 2 * k + 1, z);
    var gl, gu := Forward(Lower(block, z(k)), base, d - 1, 2 * k, z),
      Forward(Upper(block, z(k)), base, d - 1, 2 * k + 1, z);
    ForwardCong(lo, Lower(block, z(k)), base, d - 1, 2 * k, z, q);
    ForwardCong(hi, Upper(block, z(k)), base, d - 1, 2 * k + 1, z, q);
    var fd := Forest(done, base, d - 1, 2 * w, 2 * m, z);
    var fr := Forest(rest, base, d, k + 1, w - m - 1, z);
    ForwardSplit(block, base, d, k, z);
    PassRearrange(fd, fl, fu, gl, gu, fr, t, q);
  }

  lemma PassRearrange(fd: seq<int>, fl: seq<int>, fu: seq<int>, gl: seq<int>, gu: seq<int>, fr: seq<int>, t: seq<int>,
      q: int)
    requires 0 < q && CongSeq(fl, gl, q) && CongSeq(fu, gu, q)
    requires CongSeq(fd + ((gl + gu) + fr), t, q)
    ensures CongSeq(fd + fl + fu + fr, t, q)
  {
    var x, y := fd + fl + fu + fr, fd + ((gl + gu) + fr);
    CongSeqRefl(fd, q);
    CongSeqRefl(fr, q);
    assert CongSeq(x, y, q) by {
      CongSeqAppend(fd, fd, fl, gl, q);
      CongSeqAppend(fd + fl, fd + gl, fu, gu, q);
      CongSeqAppend(fd + fl + fu, fd + gl + gu, fr, fr, q);
      assert fd + gl + gu + fr == y;
    }
    CongSeqTrans(x, y, t, q);
  }

  lemma ForwardSplit(a: seq<int>, base: nat, d: nat, k: nat, z: nat -> int)
    requires |a| == Size(base, d) && 0 < d
    ensures Forward(a, base, d, k, z) ==
      Forward(Lower(a, z(k)), base, d - 1, 2 * k, z) + Forward(Upper(a, z(k)), base, d - 1, 2 * k + 1, z)
  {
  }

  lemma ForestHead(block: seq<int>, rest: seq<int>, base: nat, d: nat, k: nat, n: nat, z: nat -> int)
    requires 0 < n && |block| == Size(base, d) && |rest| == (n - 1) * Size(base, d)
    ensures |block + rest| == n * Size(base, d)
    ensures Forest(block + rest, base, d, k, n, z) ==
      Forward(block, base, d, k, z) + Forest(rest, base, d, k + 1, n - 1, z)
  {
    hide Forward;
    var s := Size(base, d);
    BlockFits(n, s);
    assert (block + rest)[..s] == block && (block + rest)[s..] == rest;
  }

  /** The whole array at the top is one block. */
  lemma PassStart(a: seq<int>, base: nat, d: nat, z: nat -> int, q: int)
    requires 0 < q && 0 < d && |a| == Size(base, d)
    ensures Passing([], a, base, d, 1, 0, z, Forward(a, base, d, 1, z), q)
  {
    hide Forward;
    assert a + [] == a;
    ForestHead(a, [], base, d, 1, 1, z);
    var f := Forward(a, base, d, 1, z);
    assert [] + (f + []) == f;
    CongSeqRefl(f, q);
  }

  /** A finished level is the next level's starting point. */
  lemma PassLevel(a: seq<int>, base: nat, d: nat, w: nat, z: nat -> int, t: seq<int>, q: int)
    requires Passing(a, [], base, d, w, w, z, t, q) && 1 < d
    ensures Passing([], a, base, d - 1, 2 * w, 0, z, t, q)
  {
    hide Forward;
    var f := Forest(a, base, d - 1, 2 * w, 2 * w, z);
    assert f + [] == f && [] + f == f;
  }

  /** The last level leaves the transform itself. */
  lemma PassEnd(a: seq<int>, base: nat, w: nat, z: nat -> int, t: seq<int>, q: int)
    requires Passing(a, [], base, 1, w, w, z, t, q)
    ensures CongSeq(a, t, q)
  {
    ForestLeaves(a, base, 2 * w, 2 * w, z);
    assert a + [] == a;
  }

  // ------------------------------------------------------------ inverse

  /** n consecutive blocks, inverse-transformed at nodes k, k + 1, ... */
  function Grove(r: seq<int>, base: nat, d: nat, k: nat, n: nat, zi: nat -> int): (a: seq<int>)
    requires |r| == n * Size(base, d)
    ensures |a| == |r|
    decreases n
  {
    if n == 0 then []
    else
      var s := Size(base, d);
      BlockFits(n, s);
      Inverse(r[..s], base, d, k, zi) + Grove(r[s..], base, d, k + 1, n - 1, zi)
  }

  lemma {:induction false} GroveAppend(x: seq<int>, block: seq<int>, base: nat, d: nat, k: nat, n: nat, zi: nat -> int)
    requires |x| == n * Size(base, d) && |block| == Size(base, d)
    ensures |x + block| == (n + 1) * Size(base, d)
    ensures Grove(x + block, base, d, k, n + 1, zi) == Grove(x, base, d, k, n, zi) + Inverse(block, base, d, k + n, zi)
    decreases n
  {
    hide Inverse;
    var s := Size(base, d);
    BlockFits(n + 1, s);
    if n == 0 {
      assert x == [] && x + block == block && block[..s] == block && block[s..] == [];
    } else {
      BlockFits(n, s);
      GroveAppend(x[s..], block, base, d, k + 1, n - 1, zi);
      assert (x + block)[..s] == x[..s] && (x + block)[s..] == x[s..] + block;
    }
  }

  lemma GroveHead(block: seq<int>, rest: seq<int>, base: nat, d: nat, k: nat, n: nat, zi: nat -> int)
    requires 0 < n && |block| == Size(base, d) && |rest| == (n - 1) * Size(base, d)
    ensures |block + rest| == n * Size(base, d)
    ensures Grove(block + rest, base, d, k, n, zi) ==
      Inverse(block, base, d, k, zi) + Grove(rest, base, d, k + 1, n - 1, zi)
  {
    hide Inverse;
    var s := Size(base, d);
    BlockFits(n, s);
    assert (block + rest)[..s] == block && (block + rest)[s..] == rest;
  }

  lemma {:induction false} GroveLeaves(r: seq<int>, base: nat, k: nat, n: nat, zi: nat -> int)
    requires |r| == n * Size(base, 0)
    ensures Grove(r, base, 0, k, n, zi) == r
    decreases n
  {
    if n > 0 {
      BlockFits(n, base);
      GroveLeaves(r[base..], base, k + 1, n - 1, zi);
    }
  }

  /** The state of an inverse level: `merged` holds m finished blocks of depth d, `waiting` the
      2(w - m) blocks of depth d - 1 still to be merged; r1 and r2 are the transform values
      they came from. */
  ghost predicate Merging(merged: seq<int>, waiting: seq<int>, r1: seq<int>, r2: seq<int>,
      base: nat, d: nat, w: nat, m: nat, zi: nat -> int, q: int) {
    0 < q && 0 < d && m <= w
    && |r1| == m * Size(base, d) && |r2| == (2 * (w - m)) * Size(base, d - 1)
    && CongSeq(merged, Grove(r1, base, d, w, m, zi), q)
    && CongSeq(waiting, Grove(r2, base, d - 1, 2 * (w + m), 2 * (w - m), zi), q)
  }

  /** Merging the next two blocks. */
  lemma MergeBlock(merged: seq<int>, lo: seq<int>, hi: seq<int>, rest: seq<int>, x: seq<int>,
      r1: seq<int>, u: seq<int>, v: seq<int>, r2: seq<int>, base: nat, d: nat, w: nat, m: nat, zi: nat -> int, q: int)
    requires |lo| == |hi| == |u| == |v| == Size(base, if d == 0 then 0 else d - 1) && m < w
    requires Merging(merged, lo + hi + rest, r1, u + v + r2, base, d, w, m, zi, q)
    requires CongSeq(x, Merge(lo, hi, zi(w + m)), q)
    ensures Merging(merged + x, rest, r1 + (u + v), r2, base, d, w, m + 1, zi, q)
  {
    hide Inverse, Merge, Grove;
    var h, s := Size(base, d - 1), Size(base, d);
    var k, n := w + m, 2 * (w - m);
    BlockFits(n, h);
    BlockFits(n - 1, h);
    BlockFits(m + 1, s);
    assert u + v + r2 == u + (v + r2) && lo + hi + rest == lo + (hi + rest);
    GroveHead(u, v + r2, base, d - 1, 2 * k, n, zi);
    GroveHead(v, r2, base, d - 1, 2 * k + 1, n - 1, zi);
    var iu, iv := Inverse(u, base, d - 1, 2 * k, zi), Inverse(v, base, d - 1, 2 * k + 1, zi);
    var g := Grove(r2, base, d - 1, 2 * k + 2, n - 2, zi);
    TakeApart(lo, hi, rest, iu, iv, g, q);
    MergeCong(lo, hi, iu, iv, zi(k), q);
    CongSeqTrans(x, Merge(lo, hi, zi(k)), Merge(iu, iv, zi(k)), q);
    InverseJoin(u, v, base, d, k, zi);
    GroveAppend(r1, u + v, base, d, w, m, zi);
    CongSeqAppend(merged, Grove(r1, base, d, w, m, zi), x, Inverse(u + v, base, d, k, zi), q);
  }

  lemma TakeApart(lo: seq<int>, hi: seq<int>, rest: seq<int>, iu: seq<int>, iv: seq<int>, g: seq<int>, q: int)
    requires 0 < q && |lo| == |iu| && |hi| == |iv| && CongSeq(lo + (hi + rest), iu + (iv + g), q)
    ensures CongSeq(lo, iu, q) && CongSeq(hi, iv, q) && CongSeq(rest, g, q)
  {
    var x, y := lo + (hi + rest), iu + (iv + g);
    forall i | 0 <= i < |lo| ensures Cong(lo[i], iu[i], q) { assert x[i] == lo[i] && y[i] == iu[i]; }
    forall i | 0 <= i < |hi| ensures Cong(hi[i], iv[i], q) { assert x[|lo| + i] == hi[i] && y[|lo| + i] == iv[i]; }
    forall i | 0 <= i < |rest| ensures Cong(rest[i], g[i], q) {
      var j := |lo| + |hi| + i;
      assert x[j] == rest[i] && y[j] == g[i];
    }
  }

  lemma InverseJoin(u: seq<int>, v: seq<int>, base: nat, d: nat, k: nat, zi: nat -> int)
    requires 0 < d && |u| == |v| == Size(base, d - 1)
    ensures |u + v| == Size(base, d)
    ensures Inverse(u + v, base, d, k, zi) ==
      Merge(Inverse(u, base, d - 1, 2 * k, zi), Inverse(v, base, d - 1, 2 * k + 1, zi), zi(k))
  {
    hide Merge;
    var r := u + v;
    assert r[..|r| / 2] == u && r[|r| / 2..] == v;
  }

  /** The leaves start as they are. */
  lemma MergeStart(r: seq<int>, base: nat, w: nat, zi: nat -> int, q: int)
    requires 0 < q && |r| == (2 * w) * Size(base, 0)
    ensures Merging([], r, [], r, base, 1, w, 0, zi, q)
  {
    GroveLeaves(r, base, 2 * w, 2 * w, zi);
    CongSeqRefl(r, q);
  }

  /** A finished level is the next one's starting point. */
  lemma MergeLevel(a: seq<int>, r: seq<int>, base: nat, d: nat, w: nat, zi: nat -> int, q: int)
    requires Merging(a, [], r, [], base, d, 2 * w, 2 * w, zi, q)
    ensures Merging([], a, [], r, base, d + 1, w, 0, zi, q)
  {
    hide Inverse;
  }

  /** One block at the root: the inverse transform. */
  lemma MergeEnd(a: seq<int>, r: seq<int>, base: nat, d: nat, zi: nat -> int, q: int)
    requires Merging(a, [], r, [], base, d, 1, 1, zi, q)
    ensures |r| == Size(base, d) && CongSeq(a, Inverse(r, base, d, 1, zi), q)
  {
    hide Inverse;
    assert r + [] == r;
    GroveHead(r, [], base, d, 1, 1, zi);
    var f := Inverse(r, base, d, 1, zi);
    assert f + [] == f;
  }

  // ------------------------------------------------------------ the loops' states, with ranges

  ghost predicate Within(a: seq<int>, b: int) { forall i | 0 <= i < |a| :: -b <= a[i] <= b }

  lemma WithinAppend(a: seq<int>, b: seq<int>, x: int)
    requires Within(a, x) && Within(b, x)
    ensures Within(a + b, x)
  {
  }

  lemma WithinSplit(a: seq<int>, b: seq<int>, x: int)
    requires Within(a + b, x)
    ensures Within(a, x) && Within(b, x)
  {
    forall i | 0 <= i < |a| ensures -x <= a[i] <= x { assert (a + b)[i] == a[i]; }
    forall i | 0 <= i < |b| ensures -x <= b[i] <= x { assert (a + b)[|a| + i] == b[i]; }
  }

  lemma WithinWider(a: seq<int>, x: int, y: int)
    requires Within(a, x) && x <= y
    ensures Within(a, y)
  {
  }

  /** A forward layer in progress: m of its w blocks are split, the split ones within `after`,
      the others within `before`. */
  ghost predicate InForward(done: seq<int>, todo: seq<int>, base: nat, d: nat, w: nat, m: nat, z: nat -> int,
      t: seq<int>, q: int, before: int, after: int) {
    Passing(done, todo, base, d, w, m, z, t, q) && Within(done, after) && Within(todo, before)
  }

  lemma SizePositive(base: nat, d: nat)
    requires 0 < base
    ensures 0 < Size(base, d) && (0 < d ==> Size(base, d) == 2 * Size(base, d - 1))
  {
    SizeIsProduct(base, d);
    MulMono(1, base, Pow2(d));
  }

  /** There is a whole block left exactly when the layer is not finished. */
  lemma ForwardRoom(done: seq<int>, todo: seq<int>, base: nat, d: nat, w: nat, m: nat, z: nat -> int,
      t: seq<int>, q: int, before: int, after: int)
    requires InForward(done, todo, base, d, w, m, z, t, q, before, after) && 0 < base
    ensures |todo| > 0 ==> m < w && |todo| >= 2 * Size(base, d - 1)
    ensures |todo| == 0 ==> m == w
  {
    hide Size, Forest, CongSeq, Within;
    SizePositive(base, d);
    if m < w { BlockFits(w - m, Size(base, d)); }
  }

  lemma ForwardBlock(done: seq<int>, block: seq<int>, rest: seq<int>, lo: seq<int>, hi: seq<int>, base: nat, d: nat,
      w: nat, m: nat, z: nat -> int, t: seq<int>, q: int, before: int, after: int)
    requires InForward(done, block + rest, base, d, w, m, z, t, q, before, after) && m < w && |block| == Size(base, d)
    requires CongSeq(lo, Lower(block, z(w + m)), q) && CongSeq(hi, Upper(block, z(w + m)), q)
    requires Within(lo + hi, after)
    ensures InForward(done + (lo + hi), rest, base, d, w, m + 1, z, t, q, before, after)
  {
    hide Passing, Within, CongSeq, Size;
    assert Passing(done, block + rest, base, d, w, m, z, t, q) &&
      0 < q by { PassingQ(done, block + rest, base, d, w, m, z, t, q); }
    PassBlock(done, block, rest, lo, hi, base, d, w, m, z, t, q);
    WithinSplit(block, rest, before);
    WithinAppend(done, lo + hi, after);
  }

  lemma PassingQ(done: seq<int>, todo: seq<int>, base: nat, d: nat, w: nat, m: nat, z: nat -> int, t: seq<int>, q: int)
    requires Passing(done, todo, base, d, w, m, z, t, q)
    ensures 0 < q && 0 < d
  {
  }

  lemma ForwardStart(a: seq<int>, base: nat, d: nat, z: nat -> int, q: int, before: int, after: int)
    requires 0 < q && 0 < d && |a| == Size(base, d) && Within(a, before)
    ensures InForward([], a, base, d, 1, 0, z, Forward(a, base, d, 1, z), q, before, after)
  {
    hide Passing, Forward, Size;
    PassStart(a, base, d, z, q);
  }

  lemma ForwardLevel(a: seq<int>, base: nat, d: nat, w: nat, z: nat -> int, t: seq<int>, q: int, before: int,
      after: int, next: int)
    requires InForward(a, [], base, d, w, w, z, t, q, before, after)
    ensures d > 1 ==> InForward([], a, base, d - 1, 2 * w, 0, z, t, q, after, next)
    ensures d == 1 ==> CongSeq(a, t, q) && Within(a, after)
  {
    hide Within, Size;
    if d > 1 { PassLevel(a, base, d, w, z, t, q); } else { PassEnd(a, base, w, z, t, q); }
    hide Passing;
    assert Within([], next) by { EmptyWithin(next); }
  }

  lemma EmptyWithin(b: int)
    ensures Within([], b)
  {
  }

  /** An inverse layer in progress. */
  ghost predicate InInverse(merged: seq<int>, waiting: seq<int>, r1: seq<int>, r2: seq<int>, base: nat, d: nat,
      w: nat, m: nat, zi: nat -> int, q: int, before: int, after: int) {
    Merging(merged, waiting, r1, r2, base, d, w, m, zi, q) && Within(merged, after) && Within(waiting, before)
    && |merged| == |r1| && |waiting| == |r2|
  }

  lemma InverseStart(r: seq<int>, base: nat, d: nat, w: nat, zi: nat -> int, q: int, before: int, after: int)
    requires 0 < q && 0 < d && |r| == Size(base, d) && w == Pow2(d - 1) && Within(r, before)
    ensures InInverse([], r, [], r, base, 1, w, 0, zi, q, before, after)
  {
    SizeIsProduct(base, d);
    Pow2Double(d);
    assert base * (2 * w) == (2 * w) * Size(base, 0);
    MergeStart(r, base, w, zi, q);
  }

  lemma InverseRoom(merged: seq<int>, waiting: seq<int>, r1: seq<int>, r2: seq<int>, base: nat, d: nat,
      w: nat, m: nat, zi: nat -> int, q: int, before: int, after: int)
    requires InInverse(merged, waiting, r1, r2, base, d, w, m, zi, q, before, after) && 0 < base
    ensures 0 < d && |waiting| == |r2|
    ensures |waiting| > 0 ==> m < w && |waiting| >= 2 * Size(base, d - 1)
    ensures |waiting| == 0 ==> m == w
  {
    hide Size, Grove, CongSeq, Within;
    SizePositive(base, d - 1);
    if m < w {
      var s := Size(base, d - 1);
      assert (2 * (w - m)) * s == (w - m) * (2 * s);
      BlockFits(w - m, 2 * s);
    }
  }

  lemma InverseBlock(merged: seq<int>, lo: seq<int>, hi: seq<int>, rest: seq<int>, x: seq<int>,
      r1: seq<int>, u: seq<int>, v: seq<int>, r2: seq<int>, base: nat, d: nat, w: nat, m: nat, zi: nat -> int, q: int,
      before: int, after: int)
    requires 0 < d && |lo| == |hi| == |u| == |v| == Size(base, d - 1) && m < w
    requires InInverse(merged, lo + hi + rest, r1, u + v + r2, base, d, w, m, zi, q, before, after)
    requires CongSeq(x, Merge(lo, hi, zi(w + m)), q) && Within(x, after)
    ensures InInverse(merged + x, rest, r1 + (u + v), r2, base, d, w, m + 1, zi, q, before, after)
  {
    hide Merging, Within, CongSeq, Size;
    MergingQ(merged, lo + hi + rest, r1, u + v + r2, base, d, w, m, zi, q);
    MergeBlock(merged, lo, hi, rest, x, r1, u, v, r2, base, d, w, m, zi, q);
    WithinSplit(lo + hi, rest, before);
    WithinAppend(merged, x, after);
    CongSeqLength(x, Merge(lo, hi, zi(w + m)), q);
  }

  lemma MergingQ(merged: seq<int>, waiting: seq<int>, r1: seq<int>, r2: seq<int>,
      base: nat, d: nat, w: nat, m: nat, zi: nat -> int, q: int)
    requires Merging(merged, waiting, r1, r2, base, d, w, m, zi, q)
    ensures 0 < q
  {
  }

  lemma InverseLevel(a: seq<int>, r: seq<int>, base: nat, d: nat, w: nat, zi: nat -> int, q: int, before: int,
      after: int, next: int)
    requires 0 < q && InInverse(a, [], r, [], base, d, w, w, zi, q, before, after) && (w == 1 || w % 2 == 0)
    ensures w > 1 ==> InInverse([], a, [], r, base, d + 1, w / 2, 0, zi, q, after, next)
    ensures w == 1 ==> |r| == Size(base, d) && CongSeq(a, Inverse(r, base, d, 1, zi), q) && Within(a, after)
  {
    hide Within, Size, Grove, Inverse;
    EmptyWithin(next);
    if w == 1 { MergeEnd(a, r, base, d, zi, q); } else { MergeLevel(a, r, base, d, w / 2, zi, q); }
  }
}
