/** Which positions ML-DSA's challenge sampler sets: the set it grows byte by byte, where each sign ends, and that
    every set of tau positions is reached by exactly tau! sequences of accepted bytes. */
module ChallengeSupport {
  import opened Options
  import opened ModArith
  import opened Bits
  import opened MlDsaParams
  import opened MlDsaScheme
  import opened MlDsaChallenge
  import BoundedDraw

  // ------------------------------------------------------------ the set and the bytes that grow it

  /** A new position joins as it is; one that is taken gives way to the index itself. */
  function Grown(s: set<nat>, i: nat, b: nat): set<nat> { s + {if b in s then i else b} }

  function GrownBy(s: set<nat>, i: nat, bs: seq<nat>): set<nat>
    decreases |bs|
  {
    if bs == [] then s else GrownBy(Grown(s, i, bs[0]), i + 1, bs[1..])
  }

  /** The accepted bytes of a stretch of stream, from index i on. */
  function Kept(i: nat, tape: seq<byte>): seq<nat>
    decreases |tape|
  {
    if i >= 256 || tape == [] then []
    else if tape[0] > i then Kept(i, tape[1..])
    else [tape[0] as nat] + Kept(i + 1, tape[1..])
  }

  /** Each byte at most its index. */
  ghost predicate Bytes(i: nat, bs: seq<nat>) { forall k | 0 <= k < |bs| :: bs[k] <= i + k }

  function NonZero(c: Poly): (s: set<nat>)
    ensures forall j: nat :: j in s <==> j < 256 && c[j] != 0
  {
    set j: nat | j < 256 && c[j] != 0
  }

  lemma SwapGrows(c: Poly, i: nat, b: nat, s: int)
    requires b <= i < 256 && s != 0 && c[i] == 0
    ensures NonZero(Swapped(c, i, b, s)) == Grown(NonZero(c), i, b)
  {
    var d := Swapped(c, i, b, s);
    forall j: nat ensures j in NonZero(d) <==> j in Grown(NonZero(c), i, b) { }
  }

  ghost predicate Clear(c: Poly, i: nat) { forall j | i <= j < 256 :: c[j] == 0 }

  lemma SwapClear(c: Poly, i: nat, b: nat, s: int)
    requires b <= i < 256 && Clear(c, i)
    ensures Clear(Swapped(c, i, b, s), i + 1)
  {
  }

  /** What a finished walk leaves non-zero, and that it kept one byte for each index. */
  lemma {:induction false} WalkGrows(p: Params, c: Poly, signs: Lane64, i: nat, tape: seq<byte>)
    requires 256 - p.Tau() <= i <= 256 && Clear(c, i) && Walk(p, c, signs, i, tape).Some?
    ensures NonZero(Walk(p, c, signs, i, tape).value) == GrownBy(NonZero(c), i, Kept(i, tape))
    ensures |Kept(i, tape)| == 256 - i && Bytes(i, Kept(i, tape))
    decreases |tape|
  {
    hide Swapped, NonZero, Clear, Grown;
    if i < 256 {
      if tape[0] > i {
        WalkGrows(p, c, signs, i, tape[1..]);
      } else {
        TauFits(p);
        var s, b: nat := SignAt(signs, i - (256 - p.Tau())), tape[0];
        assert c[i] == 0 by { ClearAt(c, i); }
        SwapGrows(c, i, b, s);
        SwapClear(c, i, b, s);
        WalkGrows(p, Swapped(c, i, b, s), signs, i + 1, tape[1..]);
        KeptOne(i, tape);
        GrownOne(NonZero(c), i, b, Kept(i + 1, tape[1..]));
        BytesOne(i, b, Kept(i + 1, tape[1..]));
      }
    }
  }

  lemma ClearAt(c: Poly, i: nat)
    requires Clear(c, i) && i < 256
    ensures c[i] == 0
  {
  }

  lemma KeptOne(i: nat, tape: seq<byte>)
    requires i < 256 && tape != [] && tape[0] <= i
    ensures Kept(i, tape) == [tape[0] as nat] + Kept(i + 1, tape[1..])
  {
  }

  lemma GrownOne(s: set<nat>, i: nat, b: nat, rest: seq<nat>)
    ensures GrownBy(s, i, [b] + rest) == GrownBy(Grown(s, i, b), i + 1, rest)
  {
    hide Grown;
    assert ([b] + rest)[1..] == rest;
  }

  lemma BytesOne(i: nat, b: nat, rest: seq<nat>)
    requires b <= i && Bytes(i + 1, rest)
    ensures Bytes(i, [b] + rest)
  {
    forall k | 0 <= k < |rest| + 1 ensures ([b] + rest)[k] <= i + k {
      if k > 0 { assert rest[k - 1] <= i + 1 + (k - 1); }
    }
  }

  /** The non-zero coefficients of a sampled challenge are the set its accepted bytes grow, tau of them. */
  lemma BallSupport(p: Params, signs: Lane64, tape: seq<byte>)
    requires Walk(p, ZeroPoly(), signs, 256 - p.Tau(), tape).Some?
    ensures var bs := Kept(256 - p.Tau(), tape);
      |bs| == p.Tau() && Bytes(256 - p.Tau(), bs)
      && NonZero(Walk(p, ZeroPoly(), signs, 256 - p.Tau(), tape).value) == GrownBy({}, 256 - p.Tau(), bs)
  {
    hide Walk, Kept, GrownBy;
    TauFits(p);
    assert NonZero(ZeroPoly()) == {};
    WalkGrows(p, ZeroPoly(), signs, 256 - p.Tau(), tape);
  }

  // ------------------------------------------------------------ the signs

  /** A place below the index that no later byte names keeps its value. */
  lemma {:induction false} WalkKeeps(p: Params, c: Poly, signs: Lane64, i: nat, tape: seq<byte>, q: nat)
    requires 256 - p.Tau() <= i <= 256 && Walk(p, c, signs, i, tape).Some? && q < i && q !in Kept(i, tape)
    ensures Walk(p, c, signs, i, tape).value[q] == c[q]
    decreases |tape|
  {
    hide SignAt;
    if i < 256 {
      if tape[0] > i {
        WalkKeeps(p, c, signs, i, tape[1..], q);
      } else {
        TauFits(p);
        KeptOne(i, tape);
        assert q !in Kept(i + 1, tape[1..]) && q != tape[0];
        WalkKeeps(p, Swapped(c, i, tape[0], SignAt(signs, i - (256 - p.Tau()))), signs, i + 1, tape[1..], q);
      }
    }
  }

  lemma {:induction false} SignFrom(p: Params, c: Poly, signs: Lane64, i: nat, tape: seq<byte>, k: nat)
    requires 256 - p.Tau() <= i <= 256 && Walk(p, c, signs, i, tape).Some? && k < |Kept(i, tape)|
    requires Kept(i, tape)[k] !in Kept(i, tape)[k + 1..]
    ensures Kept(i, tape)[k] < 256 && i - (256 - p.Tau()) + k < 64
    ensures Walk(p, c, signs, i, tape).value[Kept(i, tape)[k]] == SignAt(signs, i - (256 - p.Tau()) + k)
    decreases |tape|
  {
    hide SignAt;
    TauFits(p);
    if i < 256 {
      if tape[0] > i {
        SignFrom(p, c, signs, i, tape[1..], k);
      } else {
        var rest := Kept(i + 1, tape[1..]);
        KeptOne(i, tape);
        var d := Swapped(c, i, tape[0], SignAt(signs, i - (256 - p.Tau())));
        if k == 0 {
          assert Kept(i, tape)[1..] == rest;
          WalkKeeps(p, d, signs, i + 1, tape[1..], tape[0]);
        } else {
          assert Kept(i, tape)[k + 1..] == rest[k..];
          SignFrom(p, d, signs, i + 1, tape[1..], k - 1);
        }
      }
    }
  }

  /** The position of accepted byte k, when no later byte names it again, carries sign bit k. */
  lemma BallSigns(p: Params, signs: Lane64, tape: seq<byte>, k: nat)
    requires Walk(p, ZeroPoly(), signs, 256 - p.Tau(), tape).Some?
    requires k < |Kept(256 - p.Tau(), tape)| && k < 64
    requires Kept(256 - p.Tau(), tape)[k] !in Kept(256 - p.Tau(), tape)[k + 1..]
    ensures Kept(256 - p.Tau(), tape)[k] < 256
    ensures var c := Walk(p, ZeroPoly(), signs, 256 - p.Tau(), tape).value;
      c[Kept(256 - p.Tau(), tape)[k]] == if signs[k] then -1 else 1
  {
    hide Walk, Kept;
    SignFrom(p, ZeroPoly(), signs, 256 - p.Tau(), tape, k);
  }

  // ------------------------------------------------------------ how many sequences reach a set

  function Factorial(n: nat): nat { if n == 0 then 1 else n * Factorial(n - 1) }

  /** The n-byte sequences from index i on. */
  function Sequences(i: nat, n: nat): (r: set<seq<nat>>) {
    if n == 0 then {[]} else set s, b | s in Sequences(i, n - 1) && b in BoundedDraw.Interval(0, i + n) :: Ended(s, b)
  }

  function Ended(s: seq<nat>, b: nat): (t: seq<nat>)
    ensures |t| == |s| + 1 && t[|s|] == b && t[..|s|] == s
  {
    s + [b]
  }

  lemma {:induction false} SequencesAre(i: nat, n: nat, t: seq<nat>)
    ensures t in Sequences(i, n) <==> |t| == n && Bytes(i, t)
    decreases n
  {
    if n > 0 {
      if |t| == n {
        var s, b := t[..n - 1], t[n - 1];
        assert t == Ended(s, b);
        SequencesAre(i, n - 1, s);
        BytesLast(i, s, b);
      }
      if t in Sequences(i, n) {
        var s, b :| s in Sequences(i, n - 1) && b in BoundedDraw.Interval(0, i + n) && t == Ended(s, b);
        SequencesAre(i, n - 1, s);
        BytesLast(i, s, b);
      }
    }
  }

  lemma BytesLast(i: nat, s: seq<nat>, b: nat)
    ensures Bytes(i, Ended(s, b)) <==> Bytes(i, s) && b <= i + |s|
  {
    var t := Ended(s, b);
    if Bytes(i, t) {
      forall k | 0 <= k < |s| ensures s[k] <= i + k { assert t[k] <= i + k && t[k] == s[k]; }
      assert t[|s|] <= i + |s|;
    }
  }

  lemma {:induction false} GrownLast(s: set<nat>, i: nat, bs: seq<nat>, b: nat)
    ensures GrownBy(s, i, Ended(bs, b)) == Grown(GrownBy(s, i, bs), i + |bs|, b)
    decreases |bs|
  {
    hide Grown;
    var t := Ended(bs, b);
    if bs == [] {
      assert t[1..] == [];
    } else {
      assert t[0] == bs[0] && t[1..] == Ended(bs[1..], b);
      GrownLast(Grown(s, i, bs[0]), i + 1, bs[1..], b);
    }
  }

  /** The set grows by one each time and stays below the next index. */
  lemma {:induction false} GrownSize(i: nat, bs: seq<nat>)
    requires Bytes(i, bs)
    ensures |GrownBy({}, i, bs)| == |bs| && Under(GrownBy({}, i, bs), i + |bs|)
    decreases |bs|
  {
    if bs != [] {
      var s, b := bs[..|bs| - 1], bs[|bs| - 1];
      assert bs == Ended(s, b);
      BytesLast(i, s, b);
      GrownSize(i, s);
      GrownLast({}, i, s, b);
      var g := GrownBy({}, i, s);
      var x := if b in g then i + |s| else b;
      assert x !in g;
      assert |g + {x}| == |g| + 1;
    }
  }

  ghost predicate Under(t: set<nat>, m: nat) { forall j | j in t :: j < m }

  /** The sequences that grow the empty set to t. */
  function Reaching(i: nat, n: nat, t: set<nat>): (r: set<seq<nat>>) {
    set s | s in Sequences(i, n) && GrownBy({}, i, s) == t
  }

  /** The set before the last byte b: without the index if that is in, without b otherwise. */
  function Before(t: set<nat>, top: nat, b: nat): set<nat> { if top in t then t - {top} else t - {b} }

  lemma LastByte(i: nat, n: nat, t: set<nat>, s: seq<nat>, b: nat)
    requires |s| == n
    ensures Ended(s, b) in Reaching(i, n + 1, t) <==> b in t && b <= i + n && s in Reaching(i, n, Before(t, i + n, b))
  {
    hide Sequences, GrownBy, Bytes, Grown, Before, Under;
    SequencesAre(i, n + 1, Ended(s, b));
    SequencesAre(i, n, s);
    BytesLast(i, s, b);
    GrownLast({}, i, s, b);
    if Bytes(i, s) && b <= i + n {
      GrownSize(i, s);
      GrownBack(GrownBy({}, i, s), i + n, b, t);
    }
  }

  lemma GrownBack(g: set<nat>, top: nat, b: nat, t: set<nat>)
    requires Under(g, top) && b <= top
    ensures Grown(g, top, b) == t <==> b in t && g == Before(t, top, b)
  {
    if Grown(g, top, b) == t {
      if b in g { assert t - {top} == g; } else if b == top { assert t - {top} == g; } else { assert t - {b} == g; }
    }
    if b in t && g == Before(t, top, b) {
      if top in t { assert g + {top} == t; } else { assert g + {b} == t; }
    }
  }

  function AllEnded(r: set<seq<nat>>, b: nat): (e: set<seq<nat>>)
    ensures forall s :: s in r ==> Ended(s, b) in e
    ensures forall t :: t in e ==> t != [] && t[|t| - 1] == b && t[..|t| - 1] in r
  {
    set s | s in r :: Ended(s, b)
  }

  lemma {:induction false} AllEndedSize(r: set<seq<nat>>, b: nat)
    ensures |AllEnded(r, b)| == |r|
    decreases |r|
  {
    if r == {} {
      assert AllEnded(r, b) == {};
    } else {
      hide AllEnded, Ended;
      var s :| s in r;
      AllEndedSize(r - {s}, b);
      AllEndedNext(r, b, s);
      OneMore(AllEnded(r - {s}, b), Ended(s, b), r, s);
    }
  }

  lemma OneMore(e: set<seq<nat>>, x: seq<nat>, r: set<seq<nat>>, s: seq<nat>)
    requires s in r && x !in e && |e| == |r - {s}|
    ensures |e + {x}| == |r|
  {
    assert |r - {s}| == |r| - 1;
  }

  lemma AllEndedNext(r: set<seq<nat>>, b: nat, s: seq<nat>)
    requires s in r
    ensures Ended(s, b) !in AllEnded(r - {s}, b) && AllEnded(r, b) == AllEnded(r - {s}, b) + {Ended(s, b)}
  {
    var rest := AllEnded(r - {s}, b);
    assert Ended(s, b)[..|s|] == s;
    forall t ensures t in AllEnded(r, b) <==> t in rest || t == Ended(s, b) { EndedOf(r, b, s, t); }
    hide AllEnded, Ended;
    assert AllEnded(r, b) == rest + {Ended(s, b)};
  }

  lemma EndedOf(r: set<seq<nat>>, b: nat, s: seq<nat>, t: seq<nat>)
    requires s in r
    ensures t in AllEnded(r, b) <==> t in AllEnded(r - {s}, b) || t == Ended(s, b)
  {
    if t in AllEnded(r, b) {
      var u := t[..|t| - 1];
      assert t == Ended(u, b);
      if u != s { assert u in r - {s}; }
    }
  }

  /** Of the sequences reaching t, those whose last byte is in some part of t. */
  function EndingIn(i: nat, n: nat, t: set<nat>, part: set<nat>): (r: set<seq<nat>>) {
    set s | s in Reaching(i, n, t) && s != [] && s[|s| - 1] in part
  }

  lemma {:induction false} EndingCount(i: nat, n: nat, t: set<nat>, part: set<nat>, each: nat)
    requires part <= t && (forall b | b in t :: b <= i + n)
    requires forall b | b in t :: |Reaching(i, n, Before(t, i + n, b))| == each
    ensures |EndingIn(i, n + 1, t, part)| == |part| * each
    decreases |part|
  {
    hide Reaching, Before;
    if part == {} {
      assert EndingIn(i, n + 1, t, part) == {};
    } else {
      var b :| b in part;
      EndingCount(i, n, t, part - {b}, each);
      var r := Reaching(i, n, Before(t, i + n, b));
      AllEndedSize(r, b);
      EndingSplit(i, n, t, part, b);
      var x, y := EndingIn(i, n + 1, t, part - {b}), AllEnded(r, b);
      assert x !! y;
      hide EndingIn, AllEnded;
      Joined(x, y, part, b, each);
    }
  }

  lemma Joined(x: set<seq<nat>>, y: set<seq<nat>>, part: set<nat>, b: nat, each: nat)
    requires x !! y && b in part && |x| == |part - {b}| * each && |y| == each
    ensures |x + y| == |part| * each
  {
    assert |x + y| == |x| + |y|;
    assert |part - {b}| == |part| - 1;
    assert (|part| - 1) * each + each == |part| * each;
  }

  lemma EndingSplit(i: nat, n: nat, t: set<nat>, part: set<nat>, b: nat)
    requires part <= t && b in part && b <= i + n
    ensures EndingIn(i, n + 1, t, part)
      == EndingIn(i, n + 1, t, part - {b}) + AllEnded(Reaching(i, n, Before(t, i + n, b)), b)
  {
    hide Before;
    var x, y := EndingIn(i, n + 1, t, part - {b}), AllEnded(Reaching(i, n, Before(t, i + n, b)), b);
    forall s ensures s in EndingIn(i, n + 1, t, part) <==> s in x || s in y { EndingOne(i, n, t, part, b, s); }
    hide EndingIn, AllEnded;
    assert EndingIn(i, n + 1, t, part) == x + y;
  }

  lemma EndingOne(i: nat, n: nat, t: set<nat>, part: set<nat>, b: nat, s: seq<nat>)
    requires part <= t && b in part && b <= i + n
    ensures s in EndingIn(i, n + 1, t, part)
      <==> s in EndingIn(i, n + 1, t, part - {b}) || s in AllEnded(Reaching(i, n, Before(t, i + n, b)), b)
  {
    hide Before, GrownBy;
    var r := Reaching(i, n, Before(t, i + n, b));
    if s != [] && s[|s| - 1] == b {
      var head := s[..|s| - 1];
      assert s == Ended(head, b);
      SequencesAre(i, n + 1, s);
      SequencesAre(i, n, head);
      hide Sequences;
      if |s| == n + 1 { LastByte(i, n, t, head, b); }
    }
  }

  /** Every set of n positions below i + n is reached by exactly n! sequences. */
  lemma {:induction false} ReachingCount(i: nat, n: nat, t: set<nat>)
    requires |t| == n && Under(t, i + n)
    ensures |Reaching(i, n, t)| == Factorial(n)
    decreases n
  {
    if n == 0 {
      assert t == {};
      assert Reaching(i, 0, t) == {[]};
    } else {
      forall b | b in t ensures |Reaching(i, n - 1, Before(t, i + n - 1, b))| == Factorial(n - 1) {
        BeforeFits(i, n, t, b);
        ReachingCount(i, n - 1, Before(t, i + n - 1, b));
      }
      EndingCount(i, n - 1, t, t, Factorial(n - 1));
      AllEnding(i, n, t);
    }
  }

  lemma BeforeFits(i: nat, n: nat, t: set<nat>, b: nat)
    requires 0 < n == |t| && b in t && Under(t, i + n)
    ensures |Before(t, i + n - 1, b)| == n - 1 && Under(Before(t, i + n - 1, b), i + n - 1)
  {
  }

  lemma AllEnding(i: nat, n: nat, t: set<nat>)
    requires 0 < n
    ensures EndingIn(i, n, t, t) == Reaching(i, n, t)
  {
    forall s | s in Reaching(i, n, t) ensures s != [] && s[|s| - 1] in t {
      SequencesAre(i, n, s);
      var head, b := s[..n - 1], s[n - 1];
      assert s == Ended(head, b);
      LastByte(i, n - 1, t, head, b);
    }
  }

  /** The sampler is even: each set of tau positions out of 256 comes from tau! sequences of accepted bytes. */
  lemma ChallengeIsEven(p: Params, t: set<nat>)
    requires |t| == p.Tau() && forall j | j in t :: j < 256
    ensures |Reaching(256 - p.Tau(), p.Tau(), t)| == Factorial(p.Tau())
  {
    hide Factorial, Reaching;
    TauFits(p);
    ReachingCount(256 - p.Tau(), p.Tau(), t);
  }
}
