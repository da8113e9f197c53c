/** The hint section of an ML-DSA signature: the positions of the set bits, polynomial after
    polynomial, then a running count per polynomial. Exactly one encoding per hint vector. */
module MlDsaHints {
  import opened Options
  import opened MlDsaParams
  import opened Radix

  predicate Increasing(p: seq<int>) {
    forall a: nat, b: nat | a < b < |p| :: p[a] < p[b]
  }

  // ------------------------------------------------------------ position lists

  function Zeroes(n: nat): (z: seq<int>)
    ensures |z| == n && forall i | 0 <= i < n :: z[i] == 0
  {
    seq(n, _ => 0)
  }

  function Flat(ps: seq<seq<int>>): seq<int> {
    if ps == [] then [] else ps[0] + Flat(ps[1..])
  }

  /** The running counts, k positions having gone before. */
  function Counts(ps: seq<seq<int>>, k: nat): (c: seq<int>)
    ensures |c| == |ps|
  {
    if ps == [] then [] else [k + |ps[0]|] + Counts(ps[1..], k + |ps[0]|)
  }

  predicate AllIncreasing(ps: seq<seq<int>>) { forall i | 0 <= i < |ps| :: Increasing(ps[i]) }

  function ListBytes(ps: seq<seq<int>>, omega: nat): (s: seq<int>)
    requires |Flat(ps)| <= omega
    ensures |s| == omega + |ps|
  {
    Flat(ps) + Zeroes(omega - |Flat(ps)|) + Counts(ps, 0)
  }

  /** Decoding from polynomial i on, k positions having been read: the code's checks. */
  function ReadFrom(s: seq<int>, omega: nat, i: nat, k: nat): (r: Option<seq<seq<int>>>)
    requires omega <= |s| && i <= |s| - omega && k <= omega
    ensures r.Some? ==> |r.value| == |s| - omega - i
    decreases |s| - i
  {
    if i == |s| - omega then
      if s[k..omega] == Zeroes(omega - k) then Some([]) else None
    else
      var e := s[omega + i];
      if e < k || e > omega || !Increasing(s[k..e]) then None
      else
        var rest := ReadFrom(s, omega, i + 1, e);
        if rest.None? then None else Some([s[k..e]] + rest.value)
  }

  /** From polynomial i on, the bytes spell out these lists. */
  predicate Spells(s: seq<int>, omega: nat, i: nat, k: nat, ps: seq<seq<int>>) {
    omega <= |s| && i <= |s| - omega && k + |Flat(ps)| <= omega
    && s[k..omega] == Flat(ps) + Zeroes(omega - k - |Flat(ps)|)
    && s[omega + i..] == Counts(ps, k)
  }

  lemma SpellsStep(s: seq<int>, omega: nat, i: nat, k: nat, ps: seq<seq<int>>)
    requires omega <= |s| && i < |s| - omega && ps != [] && k <= omega
    ensures Spells(s, omega, i, k, ps) <==>
      k + |ps[0]| <= omega && s[omega + i] == k + |ps[0]| && s[k..k + |ps[0]|] == ps[0]
      && Spells(s, omega, i + 1, k + |ps[0]|, ps[1..])
  {
    var e := k + |ps[0]|;
    var rest := Flat(ps[1..]);
    var c := Counts(ps[1..], e);
    FlatNext(ps);
    CountsNext(ps, k);
    hide Flat, Counts;
    CountsSplit(s, omega + i, e, c);
    if e + |rest| <= omega { ListsSplit(s, omega, k, ps[0], rest); }
  }

  lemma FlatNext(ps: seq<seq<int>>)
    requires ps != []
    ensures Flat(ps) == ps[0] + Flat(ps[1..])
  {
  }

  lemma CountsNext(ps: seq<seq<int>>, k: nat)
    requires ps != []
    ensures Counts(ps, k) == [k + |ps[0]|] + Counts(ps[1..], k + |ps[0]|)
  {
  }

  lemma CountsSplit(s: seq<int>, a: nat, e: int, c: seq<int>)
    requires a < |s|
    ensures s[a..] == [e] + c <==> s[a] == e && s[a + 1..] == c
  {
    assert s[a..] == [s[a]] + s[a + 1..];
    if s[a..] == [e] + c {
      assert s[a..][0] == e && s[a..][1..] == ([e] + c)[1..] == c;
    }
  }

  lemma ListsSplit(s: seq<int>, omega: nat, k: nat, p: seq<int>, rest: seq<int>)
    requires k + |p| + |rest| <= omega <= |s|
    ensures s[k..omega] == p + rest + Zeroes(omega - k - |p + rest|) <==>
      s[k..k + |p|] == p && s[k + |p|..omega] == rest + Zeroes(omega - k - |p| - |rest|)
  {
    var e := k + |p|;
    Rejoin(s[k..omega], p, rest, Zeroes(omega - e - |rest|));
    assert s[k..omega][..|p|] == s[k..e] && s[k..omega][|p|..] == s[e..omega];
  }

  lemma Rejoin(x: seq<int>, a: seq<int>, b: seq<int>, c: seq<int>)
    requires |x| == |a| + |b| + |c|
    ensures x == (a + b) + c <==> x[..|a|] == a && x[|a|..] == b + c
  {
    assert (a + b) + c == a + (b + c);
    assert x == x[..|a|] + x[|a|..];
    assert (a + (b + c))[..|a|] == a && (a + (b + c))[|a|..] == b + c;
  }

  /** Decoding succeeds with ps exactly when the bytes spell increasing lists ps. */
  lemma {:induction false} ReadIffSpells(s: seq<int>, omega: nat, i: nat, k: nat, ps: seq<seq<int>>)
    requires omega <= |s| && i <= |s| - omega && k <= omega
    ensures ReadFrom(s, omega, i, k) == Some(ps) <==> Spells(s, omega, i, k, ps) && AllIncreasing(ps)
    decreases |s| - i
  {
    hide Increasing, AllIncreasing, Spells, ReadFrom;
    if i == |s| - omega {
      ReadAtEnd(s, omega, k, ps);
    } else if ps == [] {
      NotEmpty(s, omega, i, k);
    } else {
      var e := k + |ps[0]|;
      SpellsStep(s, omega, i, k, ps);
      if e <= omega { ReadIffSpells(s, omega, i + 1, e, ps[1..]); }
      ReadHead(s, omega, i, k, ps);
      AllSplit(ps);
    }
  }

  lemma NotEmpty(s: seq<int>, omega: nat, i: nat, k: nat)
    requires omega <= |s| && i < |s| - omega && k <= omega
    ensures ReadFrom(s, omega, i, k) != Some([]) && !Spells(s, omega, i, k, [])
  {
    assert |s[omega + i..]| > 0;
  }

  lemma ReadAtEnd(s: seq<int>, omega: nat, k: nat, ps: seq<seq<int>>)
    requires omega <= |s| && k <= omega
    ensures ReadFrom(s, omega, |s| - omega, k) == Some(ps) <==>
      Spells(s, omega, |s| - omega, k, ps) && AllIncreasing(ps)
  {
    assert s[omega + (|s| - omega)..] == [];
    if ps != [] {
      assert |Counts(ps, k)| > 0;
    } else {
      assert [] + Zeroes(omega - k) == Zeroes(omega - k);
    }
  }

  lemma AllSplit(ps: seq<seq<int>>)
    requires ps != []
    ensures AllIncreasing(ps) <==> Increasing(ps[0]) && AllIncreasing(ps[1..])
  {
    hide Increasing;
    if Increasing(ps[0]) && AllIncreasing(ps[1..]) {
      forall i | 0 <= i < |ps| ensures Increasing(ps[i]) { if i > 0 { assert ps[i] == ps[1..][i - 1]; } }
    }
  }

  lemma ReadHead(s: seq<int>, omega: nat, i: nat, k: nat, ps: seq<seq<int>>)
    requires omega <= |s| && i < |s| - omega && k <= omega && ps != []
    ensures ReadFrom(s, omega, i, k) == Some(ps) <==>
      k + |ps[0]| <= omega && s[omega + i] == k + |ps[0]| && s[k..k + |ps[0]|] == ps[0] && Increasing(ps[0])
      && ReadFrom(s, omega, i + 1, k + |ps[0]|) == Some(ps[1..])
  {
    hide Increasing;
    var e := s[omega + i];
    if k <= e <= omega && Increasing(s[k..e]) && ReadFrom(s, omega, i + 1, e).Some? {
      var rest := ReadFrom(s, omega, i + 1, e).value;
      assert ([s[k..e]] + rest)[0] == s[k..e] && ([s[k..e]] + rest)[1..] == rest;
      assert ps == [ps[0]] + ps[1..];
    }
  }

  // ------------------------------------------------------------ hint polynomials

  type Hints = seq<seq<int>>

  predicate IsFlags(h: seq<int>) { |h| == N && forall j | 0 <= j < N :: h[j] == 0 || h[j] == 1 }
  predicate IsHints(h: Hints) { forall i | 0 <= i < |h| :: IsFlags(h[i]) }

  /** The set positions below n, in order. */
  function Positions(h: seq<int>, n: nat): (p: seq<int>)
    requires n <= |h|
    ensures |p| <= n
    decreases n
  {
    if n == 0 then [] else Positions(h, n - 1) + (if h[n - 1] != 0 then [n - 1] else [])
  }

  lemma {:induction false} PositionsFacts(h: seq<int>, n: nat)
    requires n <= |h|
    ensures Increasing(Positions(h, n))
    ensures forall x :: x in Positions(h, n) <==> 0 <= x < n && h[x] != 0
    decreases n
  {
    if n > 0 {
      PositionsFacts(h, n - 1);
      var p := Positions(h, n - 1);
      assert forall a | 0 <= a < |p| :: p[a] in p;
    }
  }

  function FromPositions(p: seq<int>): (h: seq<int>)
    ensures |h| == N && forall j | 0 <= j < N :: h[j] == if j in p then 1 else 0
  {
    seq(N, j => if j in p then 1 else 0)
  }

  /** An increasing list is determined by its members. */
  lemma {:induction false} IncreasingUnique(a: seq<int>, b: seq<int>)
    requires Increasing(a) && Increasing(b) && (forall x | x in a :: x in b) && (forall x | x in b :: x in a)
    ensures a == b
    decreases |a|
  {
    if a == [] {
      assert b == [] by { assert forall i | 0 <= i < |b| :: b[i] in b; }
    } else {
      assert a[0] in a && a[0] in b;
      var m, n := |a| - 1, |b| - 1;
      assert a[m] in a && a[m] in b;
      assert b != [] && b[n] in b && b[n] in a;
      assert a[m] == b[n];
      Init(a);
      Init(b);
      forall x | x in a[..m] ensures x in b[..n] { assert x in a; }
      forall x | x in b[..n] ensures x in a[..m] { assert x in b; }
      IncreasingUnique(a[..m], b[..n]);
      assert a == a[..m] + [a[m]] && b == b[..n] + [b[n]];
    }
  }

  lemma Init(a: seq<int>)
    requires a != [] && Increasing(a)
    ensures Increasing(a[..|a| - 1])
    ensures forall x | x in a && x != a[|a| - 1] :: x in a[..|a| - 1]
    ensures forall x | x in a[..|a| - 1] :: x in a && x != a[|a| - 1]
  {
    forall x | x in a && x != a[|a| - 1] ensures x in a[..|a| - 1] {
      var i :| 0 <= i < |a| && a[i] == x;
      assert a[..|a| - 1][i] == x;
    }
  }

  lemma PositionsOfFlags(p: seq<int>)
    requires Increasing(p) && forall x | x in p :: 0 <= x < N
    ensures Positions(FromPositions(p), N) == p
  {
    PositionsFacts(FromPositions(p), N);
    hide Positions;
    IncreasingUnique(Positions(FromPositions(p), N), p);
  }

  lemma FlagsOfPositions(h: seq<int>)
    requires IsFlags(h)
    ensures FromPositions(Positions(h, N)) == h
  {
    PositionsFacts(h, N);
    hide Positions;
  }

  function Lists(h: Hints): (ps: seq<seq<int>>)
    requires IsHints(h)
    ensures |ps| == |h|
  {
    seq(|h|, i requires 0 <= i < |h| => Positions(h[i], N))
  }

  function FromLists(ps: seq<seq<int>>): (h: Hints)
    ensures |h| == |ps| && IsHints(h)
  {
    seq(|ps|, i requires 0 <= i < |ps| => FromPositions(ps[i]))
  }

  function HintWeight(h: Hints): nat requires IsHints(h) { |Flat(Lists(h))| }

  function HintBytes(h: Hints, omega: nat): (s: seq<int>)
    requires IsHints(h) && HintWeight(h) <= omega
    ensures |s| == omega + |h|
  {
    ListBytes(Lists(h), omega)
  }

  function HintRead(s: seq<int>, omega: nat): (r: Option<Hints>)
    requires omega <= |s|
    ensures r.Some? ==> IsHints(r.value) && |r.value| == |s| - omega
  {
    match ReadFrom(s, omega, 0, 0)
    case None => None
    case Some(ps) => Some(FromLists(ps))
  }

  lemma ListsIncreasing(h: Hints)
    requires IsHints(h)
    ensures AllIncreasing(Lists(h)) && FromLists(Lists(h)) == h
  {
    hide Increasing, Positions;
    forall i | 0 <= i < |h| ensures Increasing(Lists(h)[i]) && FromLists(Lists(h))[i] == h[i] {
      PositionsFacts(h[i], N);
      FlagsOfPositions(h[i]);
    }
  }

  lemma SpellsListBytes(ps: seq<seq<int>>, omega: nat)
    requires |Flat(ps)| <= omega
    ensures Spells(ListBytes(ps, omega), omega, 0, 0, ps)
  {
    hide Flat, Counts;
    var s := ListBytes(ps, omega);
    assert s[0..omega] == Flat(ps) + Zeroes(omega - |Flat(ps)|);
    assert s[omega + 0..] == Counts(ps, 0);
  }

  lemma {:induction false} FlatRange(ps: seq<seq<int>>)
    requires forall i | 0 <= i < |ps| :: Digits(ps[i], N)
    ensures Digits(Flat(ps), N)
  {
    if ps != [] { FlatRange(ps[1..]); }
  }

  lemma {:induction false} CountsRange(ps: seq<seq<int>>, k: nat, m: nat)
    requires k + |Flat(ps)| <= m
    ensures Digits(Counts(ps, k), m + 1)
    decreases |ps|
  {
    if ps != [] { CountsRange(ps[1..], k + |ps[0]|, m); }
  }

  /** The hint section is a byte string. */
  lemma HintBytesRange(h: Hints, omega: nat)
    requires IsHints(h) && HintWeight(h) <= omega < N
    ensures Digits(HintBytes(h, omega), N)
  {
    hide Positions;
    forall i | 0 <= i < |h| ensures Digits(Lists(h)[i], N) {
      PositionsFacts(h[i], N);
      var p := Positions(h[i], N);
      assert forall j | 0 <= j < |p| :: p[j] in p;
    }
    FlatRange(Lists(h));
    CountsRange(Lists(h), 0, omega);
  }

  /** Decoding what was encoded. */
  lemma HintReadBytes(h: Hints, omega: nat)
    requires IsHints(h) && HintWeight(h) <= omega
    ensures HintRead(HintBytes(h, omega), omega) == Some(h)
  {
    hide Flat, Counts, Increasing, Positions, Spells, ReadFrom;
    ListsIncreasing(h);
    SpellsListBytes(Lists(h), omega);
    ReadIffSpells(HintBytes(h, omega), omega, 0, 0, Lists(h));
  }

  lemma {:induction false} FlatMembers(ps: seq<seq<int>>, i: nat, x: int)
    requires i < |ps| && x in ps[i]
    ensures x in Flat(ps)
  {
    if i > 0 { FlatMembers(ps[1..], i - 1, x); }
  }

  /** Lists read off bytes are the positions of their flags. */
  lemma ListsOfRead(ps: seq<seq<int>>, s: seq<int>, omega: nat)
    requires Spells(s, omega, 0, 0, ps) && AllIncreasing(ps) && Digits(s, N)
    ensures Lists(FromLists(ps)) == ps
  {
    hide Increasing, Positions, Counts;
    forall i | 0 <= i < |ps| ensures Lists(FromLists(ps))[i] == ps[i] {
      forall x | x in ps[i] ensures 0 <= x < N {
        FlatMembers(ps, i, x);
        hide Flat;
        var j :| 0 <= j < |Flat(ps)| && Flat(ps)[j] == x;
        assert s[0..omega][j] == x;
      }
      PositionsOfFlags(ps[i]);
    }
  }

  /** Every accepted hint section is the encoding of what it decodes to. */
  lemma HintBytesRead(s: seq<int>, omega: nat)
    requires omega <= |s| && Digits(s, N) && HintRead(s, omega).Some?
    ensures HintWeight(HintRead(s, omega).value) <= omega
    ensures HintBytes(HintRead(s, omega).value, omega) == s
  {
    hide Flat, Counts, Increasing, Positions, ReadFrom;
    var ps := ReadFrom(s, omega, 0, 0).value;
    ReadIffSpells(s, omega, 0, 0, ps);
    ListsOfRead(ps, s, omega);
    assert s == s[0..omega] + s[omega + 0..];
  }

  // ------------------------------------------------------------ the code

  /** The encoder after i polynomials and k positions. */
  ghost predicate Writing(s: seq<int>, ps: seq<seq<int>>, omega: nat, i: nat, k: nat) {
    i <= |ps| && |s| == omega + |ps| && k + |Flat(ps[i..])| <= omega
    && s[..k] + Flat(ps[i..]) == Flat(ps) && s[k..omega] == Zeroes(omega - k)
    && s[omega..omega + i] + Counts(ps[i..], k) == Counts(ps, 0)
  }

  lemma WriteOne(b: seq<int>, c: seq<int>, ps: seq<seq<int>>, omega: nat, i: nat, k: nat)
    requires Writing(b, ps, omega, i, k) && i < |ps| && |c| == |b| && c[omega..] == b[omega..]
    requires var e := k + |ps[i]|;
      e <= omega && c[..e] == b[..k] + ps[i] && c[e..omega] == Zeroes(omega - e)
    ensures Writing(c[omega + i := k + |ps[i]|], ps, omega, i + 1, k + |ps[i]|)
  {
    hide Flat, Counts;
    var e := k + |ps[i]|;
    Drops(ps, i, k);
    CountWritten(b, c, c[omega + i := e], omega, i, e);
    assert (b[..k] + ps[i]) + Flat(ps[i + 1..]) == b[..k] + (ps[i] + Flat(ps[i + 1..]));
  }

  /** The encoder's two loops. */
  method PackHints(h: Hints, omega: nat) returns (s: seq<int>)
    requires IsHints(h) && HintWeight(h) <= omega
    ensures s == HintBytes(h, omega)
  {
    hide Flat, Counts, Positions, Writing;
    ghost var ps := Lists(h);
    s := Zeroes(omega + |h|);
    var k: nat := 0;
    var i: nat := 0;
    WriteStart(ps, omega);
    while i < |h|
      invariant 0 <= i <= |h| && Writing(s, ps, omega, i, k)
    {
      WriteRoom(s, ps, omega, i, k);
      ghost var b := s;
      s := PackOne(h[i], s, omega, k);
      WriteOne(b, s, ps, omega, i, k);
      k := k + |Positions(h[i], N)|;
      s := s[omega + i := k];
      i := i + 1;
    }
    WriteEnd(s, ps, omega, k);
  }

  lemma WriteStart(ps: seq<seq<int>>, omega: nat)
    requires |Flat(ps)| <= omega
    ensures Writing(Zeroes(omega + |ps|), ps, omega, 0, 0)
  {
    hide Flat, Counts;
    Drops(ps, 0, 0);
  }

  lemma WriteRoom(s: seq<int>, ps: seq<seq<int>>, omega: nat, i: nat, k: nat)
    requires Writing(s, ps, omega, i, k) && i < |ps|
    ensures k + |ps[i]| <= omega && |s| == omega + |ps| && s[k..omega] == Zeroes(omega - k)
  {
    hide Flat, Counts;
    Drops(ps, i, k);
  }

  lemma WriteEnd(s: seq<int>, ps: seq<seq<int>>, omega: nat, k: nat)
    requires Writing(s, ps, omega, |ps|, k)
    ensures |Flat(ps)| <= omega && s == ListBytes(ps, omega)
  {
    hide Flat, Counts;
    Drops(ps, |ps|, k);
    assert s == s[..k] + s[k..omega] + s[omega..omega + |ps|];
  }

  lemma CountWritten(b: seq<int>, c: seq<int>, s: seq<int>, omega: nat, i: nat, k: nat)
    requires |b| == |c| && omega + i < |b| && k <= omega && b[omega..] == c[omega..] && s == c[omega + i := k]
    ensures s[omega..omega + (i + 1)] == b[omega..omega + i] + [k]
    ensures s[..k] == c[..k] && s[k..omega] == c[k..omega]
  {
    forall j | omega <= j < omega + i ensures s[j] == b[j] { assert b[omega..][j - omega] == c[omega..][j - omega]; }
  }

  lemma Drops(ps: seq<seq<int>>, i: nat, k: nat)
    requires i <= |ps|
    ensures ps[0..] == ps
    ensures i == |ps| ==> Flat(ps[i..]) == [] && Counts(ps[i..], k) == []
    ensures i < |ps| ==> Flat(ps[i..]) == ps[i] + Flat(ps[i + 1..])
    ensures i < |ps| ==> Counts(ps[i..], k) == [k + |ps[i]|] + Counts(ps[i + 1..], k + |ps[i]|)
  {
    if i < |ps| { assert ps[i..][1..] == ps[i + 1..]; }
  }

  /** One polynomial: its set positions from place k. */
  method PackOne(p: seq<int>, s: seq<int>, omega: nat, k: nat) returns (t: seq<int>)
    requires |p| == N && omega <= |s| && k + |Positions(p, N)| <= omega && s[k..omega] == Zeroes(omega - k)
    ensures |t| == |s| && t[omega..] == s[omega..] && t[..k + |Positions(p, N)|] == s[..k] + Positions(p, N)
    ensures t[k + |Positions(p, N)|..omega] == Zeroes(omega - k - |Positions(p, N)|)
  {
    hide Placing, Positions;
    t := s;
    var k' := k;
    var j := 0;
    PlaceStart(p, s, omega, k);
    while j < N
      invariant 0 <= j <= N && k' == k + |Positions(p, j)| && Placing(t, s, omega, k, k', Positions(p, j))
    {
      PositionsStep(p, j);
      PositionsMono(p, j + 1, N);
      if p[j] != 0 {
        PlaceRoom(t, s, omega, k, k', Positions(p, j));
        Placed(t, s, omega, k, k', Positions(p, j), j);
        t := t[k' := j];
        k' := k' + 1;
      }
      j := j + 1;
    }
    PlaceRoom(t, s, omega, k, k', Positions(p, j));
  }

  lemma PlaceStart(p: seq<int>, s: seq<int>, omega: nat, k: nat)
    requires k <= omega <= |s| && s[k..omega] == Zeroes(omega - k)
    ensures Positions(p, 0) == [] && Placing(s, s, omega, k, k, [])
  {
    assert s[..k] + [] == s[..k];
  }

  lemma PositionsStep(p: seq<int>, j: nat)
    requires j < |p|
    ensures Positions(p, j + 1) == if p[j] != 0 then Positions(p, j) + [j] else Positions(p, j)
  {
  }

  lemma PlaceRoom(t: seq<int>, s: seq<int>, omega: nat, k: nat, k': nat, ps: seq<int>)
    requires Placing(t, s, omega, k, k', ps)
    ensures |t| == |s| && k' <= omega <= |s| && t[omega..] == s[omega..] && t[..k'] == s[..k] + ps
    ensures t[k'..omega] == Zeroes(omega - k')
  {
  }

  ghost predicate Placing(t: seq<int>, s: seq<int>, omega: nat, k: nat, k': nat, ps: seq<int>) {
    k <= k' <= omega <= |s| && |t| == |s| && t[omega..] == s[omega..] && t[..k'] == s[..k] + ps
    && t[k'..omega] == Zeroes(omega - k')
  }

  lemma Placed(t: seq<int>, s: seq<int>, omega: nat, k: nat, k': nat, ps: seq<int>, j: int)
    requires Placing(t, s, omega, k, k', ps) && k' < omega
    ensures Placing(t[k' := j], s, omega, k, k' + 1, ps + [j])
  {
    var n := t[k' := j];
    assert n[..k' + 1] == t[..k'] + [j];
    assert n[omega..] == t[omega..];
    assert n[k' + 1..omega] == t[k'..omega][1..];
  }

  lemma {:induction false} PositionsMono(h: seq<int>, m: nat, n: nat)
    requires m <= n <= |h|
    ensures |Positions(h, m)| <= |Positions(h, n)|
    decreases n
  {
    if m < n { PositionsMono(h, m, n - 1); }
  }

  function Prefixed(ps: seq<seq<int>>, r: Option<seq<seq<int>>>): Option<seq<seq<int>>> {
    if r.None? then None else Some(ps + r.value)
  }

  /** The decoder with its early returns. */
  method UnpackHints(s: seq<int>, omega: nat) returns (r: Option<Hints>)
    requires omega <= |s| && Digits(s, N)
    ensures r == HintRead(s, omega)
  {
    hide Increasing;
    var h: Hints := [];
    ghost var ps: seq<seq<int>> := [];
    var k := 0;
    var i := 0;
    PrefixNone(s, omega);
    while i < |s| - omega
      invariant 0 <= i <= |s| - omega && 0 <= k <= omega && h == FromLists(ps)
      invariant ReadFrom(s, omega, 0, 0) == Prefixed(ps, ReadFrom(s, omega, i, k))
    {
      hide ReadFrom;
      var e := s[omega + i];
      ReadOne(s, omega, i, k, ps);
      if e < k || e > omega { return None; }
      var p, ok := ReadFlags(s, k, e);
      if !ok { return None; }
      h := h + [p];
      ps := ps + [s[k..e]];
      k := e;
      i := i + 1;
    }
    var j := k;
    while j < omega
      invariant k <= j <= omega && forall x | k <= x < j :: s[x] == 0
    {
      if s[j] != 0 {
        assert s[k..omega][j - k] == s[j];
        return None;
      }
      j := j + 1;
    }
    assert ps + [] == ps;
    return Some(h);
  }

  lemma PrefixNone(s: seq<int>, omega: nat)
    requires omega <= |s|
    ensures ReadFrom(s, omega, 0, 0) == Prefixed([], ReadFrom(s, omega, 0, 0))
  {
    var r := ReadFrom(s, omega, 0, 0);
    if r.Some? { assert [] + r.value == r.value; }
  }

  /** The inner loop: rejects a list that is not strictly increasing. */
  method ReadFlags(s: seq<int>, k: nat, e: nat) returns (p: seq<int>, ok: bool)
    requires k <= e <= |s| && Digits(s, N)
    ensures ok <==> Increasing(s[k..e])
    ensures ok ==> p == FromPositions(s[k..e])
  {
    var j := k;
    p := Zeroes(N);
    while j < e
      invariant k <= j <= e && Increasing(s[k..j]) && p == FromPositions(s[k..j])
    {
      if j > k && s[j] <= s[j - 1] {
        assert s[k..e][j - 1 - k] == s[j - 1] && s[k..e][j - k] == s[j];
        return p, false;
      }
      hide Increasing, FromPositions;
      IncreasingGrow(s, k, j);
      p := p[s[j] := 1];
      j := j + 1;
    }
    return p, true;
  }

  lemma IncreasingGrow(s: seq<int>, k: nat, j: nat)
    requires k <= j < |s| && Increasing(s[k..j]) && Digits(s, N)
    requires j > k ==> s[j - 1] < s[j]
    ensures Increasing(s[k..j + 1])
    ensures FromPositions(s[k..j + 1]) == FromPositions(s[k..j])[s[j] := 1]
  {
    assert s[k..j + 1] == s[k..j] + [s[j]];
    if j > k { assert s[k..j][j - 1 - k] == s[j - 1]; }
  }

  lemma ReadOne(s: seq<int>, omega: nat, i: nat, k: nat, ps: seq<seq<int>>)
    requires omega <= |s| && i < |s| - omega && k <= omega
    ensures var e := s[omega + i];
      if e < k || e > omega || !Increasing(s[k..e]) then ReadFrom(s, omega, i, k).None?
      else Prefixed(ps, ReadFrom(s, omega, i, k)) == Prefixed(ps + [s[k..e]], ReadFrom(s, omega, i + 1, e))
  {
    hide Increasing;
    var e := s[omega + i];
    if k <= e <= omega && Increasing(s[k..e]) && ReadFrom(s, omega, i + 1, e).Some? {
      var x := s[k..e];
      assert ps + ([x] + ReadFrom(s, omega, i + 1, e).value) == (ps + [x]) + ReadFrom(s, omega, i + 1, e).value;
    }
  }
}
