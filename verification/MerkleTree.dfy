/** The Merkle tree: level-by-level reduction with promotion, inclusion proofs, and what equal
    roots mean. The hash is an arbitrary function to 32 bytes. */
module MerkleTree {
  import opened Options
  import opened ModArith
  import opened Bits

  type Digest = d: seq<byte> | |d| == 32 witness seq(32, _ => 0)
  type Hash = seq<byte> -> Digest

  /** Scheme 2 separates leaves from interior nodes by a leading byte; scheme 1 does not. */
  datatype Scheme = Scheme1 | Scheme2

  function LeafInput(s: Scheme, chunk: seq<byte>): seq<byte> { if s == Scheme2 then [0x00] + chunk else chunk }

  function NodeInput(s: Scheme, l: Digest, r: Digest): seq<byte> { if s == Scheme2 then [0x01] + l + r else l + r }

  function Node(h: Hash, s: Scheme, l: Digest, r: Digest): Digest { h(NodeInput(s, l, r)) }

  // ------------------------------------------------------------ the tree of RFC 6962

  /** The largest power of two below n. */
  function Cut(n: nat): (k: nat)
    requires 2 <= n
    ensures 1 <= k < n <= 2 * k
  {
    if n == 2 then 1 else 2 * Cut((n + 1) / 2)
  }

  /** It is one. */
  lemma {:induction false} CutIsPower(n: nat) returns (e: nat)
    requires 2 <= n
    ensures Cut(n) == Pow2(e)
  {
    if n == 2 { e := 0; } else { e := CutIsPower((n + 1) / 2); e := e + 1; }
  }

  /** The tree hash of section 2.1 of RFC 6962, over leaf digests. */
  function Tree(h: Hash, s: Scheme, lvl: seq<Digest>): Digest
    requires 1 <= |lvl|
    decreases |lvl|
  {
    if |lvl| == 1 then lvl[0] else
      var k := Cut(|lvl|);
      Node(h, s, Tree(h, s, lvl[..k]), Tree(h, s, lvl[k..]))
  }

  // ------------------------------------------------------------ one level

  /** Pairs hashed, an unpaired last node promoted unchanged. */
  function Reduced(h: Hash, s: Scheme, lvl: seq<Digest>): (up: seq<Digest>)
    ensures |up| == (|lvl| + 1) / 2
  {
    seq<Digest>((|lvl| + 1) / 2, k requires 0 <= k < (|lvl| + 1) / 2 =>
      if 2 * k + 1 < |lvl| then Node(h, s, lvl[2 * k], lvl[2 * k + 1]) else lvl[2 * k])
  }

  method MerkleReduce(h: Hash, s: Scheme, lvl: seq<Digest>) returns (up: seq<Digest>)
    ensures up == Reduced(h, s, lvl)
  {
    var nodes := |lvl|;
    up := [];
    var i := 0;
    while i + 1 < nodes
      invariant 0 <= i <= nodes && i == 2 * |up| && forall k | 0 <= k < |up| :: up[k] == Reduced(h, s, lvl)[k]
    {
      up := up + [h(NodeInput(s, lvl[i], lvl[i + 1]))];
      i := i + 2;
    }
    if i < nodes { up := up + [lvl[i]]; }
  }

  lemma ReducedAt(h: Hash, s: Scheme, lvl: seq<Digest>, j: nat)
    requires 2 * j < |lvl|
    ensures Reduced(h, s, lvl)[j] == if 2 * j + 1 < |lvl| then Node(h, s, lvl[2 * j], lvl[2 * j + 1]) else lvl[2 * j]
  {
    hide Node;
  }

  /** Reducing splits where an even number of nodes does. */
  lemma ReducedParts(h: Hash, s: Scheme, lvl: seq<Digest>, k: nat)
    requires 2 * k <= |lvl|
    ensures Reduced(h, s, lvl)[..k] == Reduced(h, s, lvl[..2 * k])
    ensures Reduced(h, s, lvl)[k..] == Reduced(h, s, lvl[2 * k..])
  {
    hide Reduced, Node;
    var up, lo, hi := Reduced(h, s, lvl), lvl[..2 * k], lvl[2 * k..];
    forall j | 0 <= j < k ensures up[j] == Reduced(h, s, lo)[j] {
      ReducedAt(h, s, lvl, j);
      ReducedAt(h, s, lo, j);
    }
    var top := up[k..];
    forall j | 0 <= j < |top| ensures top[j] == Reduced(h, s, hi)[j] {
      ReducedAt(h, s, lvl, k + j);
      ReducedAt(h, s, hi, j);
    }
  }

  lemma ReducedOne(h: Hash, s: Scheme, lvl: seq<Digest>)
    requires |lvl| == 1
    ensures Reduced(h, s, lvl) == lvl
  {
  }

  /** Reducing a level keeps the tree's root. */
  lemma {:induction false} ReduceKeepsTree(h: Hash, s: Scheme, lvl: seq<Digest>)
    requires 2 <= |lvl|
    ensures Tree(h, s, Reduced(h, s, lvl)) == Tree(h, s, lvl)
    decreases |lvl|, 0
  {
    var n := |lvl|;
    if n > 2 {
      var k := Cut(n) / 2;
      hide Reduced, Node;
      assert Cut(n) == 2 * k && k == Cut((n + 1) / 2);
      ReducedParts(h, s, lvl, k);
      ReduceSame(h, s, lvl[..2 * k]);
      ReduceSame(h, s, lvl[2 * k..]);
    }
  }

  lemma ReduceSame(h: Hash, s: Scheme, lvl: seq<Digest>)
    requires 1 <= |lvl|
    ensures Tree(h, s, Reduced(h, s, lvl)) == Tree(h, s, lvl)
    decreases |lvl|, 1
  {
    hide Reduced;
    if |lvl| == 1 { ReducedOne(h, s, lvl); } else { ReduceKeepsTree(h, s, lvl); }
  }

  // ------------------------------------------------------------ the root

  function Leaves(h: Hash, s: Scheme, chunks: seq<seq<byte>>): (lvl: seq<Digest>)
    ensures |lvl| == |chunks|
  {
    seq<Digest>(|chunks|, i requires 0 <= i < |chunks| => h(LeafInput(s, chunks[i])))
  }

  method LeavesFromChunks(h: Hash, s: Scheme, chunks: seq<seq<byte>>) returns (lvl: seq<Digest>)
    ensures lvl == Leaves(h, s, chunks)
  {
    lvl := [];
    for i := 0 to |chunks|
      invariant |lvl| == i && forall k | 0 <= k < i :: lvl[k] == Leaves(h, s, chunks)[k]
    {
      lvl := lvl + [h(LeafInput(s, chunks[i]))];
    }
  }

  /** The root over a list of chunks: the recursive tree hash of the leaf digests; none for no chunks. */
  method MerkleRoot(h: Hash, s: Scheme, chunks: seq<seq<byte>>) returns (root: Option<Digest>)
    ensures root == if chunks == [] then None else Some(Tree(h, s, Leaves(h, s, chunks)))
  {
    if |chunks| < 1 { return None; }
    hide Reduced, Leaves;
    var lvl := LeavesFromChunks(h, s, chunks);
    while |lvl| > 1
      invariant 1 <= |lvl| && Tree(h, s, lvl) == Tree(h, s, Leaves(h, s, chunks))
      decreases |lvl|
    {
      ReduceKeepsTree(h, s, lvl);
      lvl := MerkleReduce(h, s, lvl);
    }
    root := Some(lvl[0]);
  }

  // ------------------------------------------------------------ inclusion proofs

  /** A sibling and the side it stands on. */
  datatype Step = Step(sibling: Digest, onRight: bool)

  /** The leaf hashed up along the proof. */
  function Folded(h: Hash, s: Scheme, leaf: Digest, path: seq<Step>): Digest
    decreases |path|
  {
    if path == [] then leaf else
      var t := path[0];
      Folded(h, s, if t.onRight then Node(h, s, leaf, t.sibling) else Node(h, s, t.sibling, leaf), path[1..])
  }

  lemma {:induction false} FoldedMore(h: Hash, s: Scheme, leaf: Digest, path: seq<Step>, t: Step)
    ensures Folded(h, s, leaf, path + [t])
      == var d := Folded(h, s, leaf, path); if t.onRight then Node(h, s, d, t.sibling) else Node(h, s, t.sibling, d)
    decreases |path|
  {
    hide Node;
    if path == [] {
      assert path + [t] == [t] && [t][1..] == [];
    } else {
      var u := path[0];
      assert (path + [t])[0] == u && (path + [t])[1..] == path[1..] + [t];
      FoldedMore(h, s, if u.onRight then Node(h, s, leaf, u.sibling) else Node(h, s, u.sibling, leaf), path[1..], t);
    }
  }

  /** The number of levels above n nodes. */
  function Height(n: nat): nat { if n <= 1 then 0 else 1 + Height((n + 1) / 2) }

  /** It is the least e with n <= 2^e. */
  lemma {:induction false} HeightIsLog(n: nat)
    ensures n <= Pow2(Height(n)) && (n >= 2 ==> Pow2(Height(n) - 1) < n)
  {
    if n >= 2 {
      var m := (n + 1) / 2;
      HeightIsLog(m);
      if m == 1 { assert n == 2 && Pow2(0) == 1; }
    }
  }

  /** One level of a proof: the sibling, if there is one, joins the path. */
  method ProofStep(h: Hash, s: Scheme, lvl: seq<Digest>, pos: nat, path: seq<Step>, ghost leaf: Digest)
    returns (next: seq<Step>)
    requires 2 <= |lvl| && pos < |lvl| && Folded(h, s, leaf, path) == lvl[pos]
    ensures Folded(h, s, leaf, next) == Reduced(h, s, lvl)[pos / 2] && |next| <= |path| + 1
  {
    hide Folded, Node, Reduced;
    var nodes := |lvl|;
    ReducedAt(h, s, lvl, pos / 2);
    if pos + 1 == nodes && nodes % 2 == 1 {
      next := path;
    } else if pos % 2 == 0 {
      FoldedMore(h, s, leaf, path, Step(lvl[pos + 1], true));
      next := path + [Step(lvl[pos + 1], true)];
    } else {
      FoldedMore(h, s, leaf, path, Step(lvl[pos - 1], false));
      next := path + [Step(lvl[pos - 1], false)];
    }
  }

  /** The proof for leaf `index`: its siblings fold the leaf back to the root, one a level at most. */
  method MerkleProof(h: Hash, s: Scheme, chunks: seq<seq<byte>>, index: nat) returns (path: seq<Step>)
    requires index < |chunks|
    ensures Folded(h, s, Leaves(h, s, chunks)[index], path) == Tree(h, s, Leaves(h, s, chunks))
    ensures |path| <= Height(|chunks|)
  {
    hide Leaves, Folded, Node, Reduced;
    var lvl := LeavesFromChunks(h, s, chunks);
    ghost var leaf, root := lvl[index], Tree(h, s, lvl);
    path := [];
    var pos := index;
    FoldedNone(h, s, leaf);
    while |lvl| > 1
      invariant 1 <= |lvl| && 0 <= pos < |lvl| && Tree(h, s, lvl) == root
      invariant Folded(h, s, leaf, path) == lvl[pos]
      invariant |path| + Height(|lvl|) <= Height(|chunks|)
      decreases |lvl|
    {
      ReduceKeepsTree(h, s, lvl);
      path := ProofStep(h, s, lvl, pos, path, leaf);
      pos := pos / 2;
      lvl := MerkleReduce(h, s, lvl);
    }
  }

  lemma FoldedNone(h: Hash, s: Scheme, leaf: Digest)
    ensures Folded(h, s, leaf, []) == leaf
  {
  }

  // ------------------------------------------------------------ equal roots

  function Root(h: Hash, s: Scheme, chunks: seq<seq<byte>>): Digest
    requires 1 <= |chunks|
  {
    Tree(h, s, Leaves(h, s, chunks))
  }

  /** The last hash input behind a root. */
  function TopInput(h: Hash, s: Scheme, chunks: seq<seq<byte>>): seq<byte>
    requires 1 <= |chunks|
  {
    if |chunks| == 1 then LeafInput(s, chunks[0]) else
      var k := Cut(|chunks|);
      NodeInput(s, Root(h, s, chunks[..k]), Root(h, s, chunks[k..]))
  }

  /** Every input the tree over these chunks hashes. */
  function TreeInputs(h: Hash, s: Scheme, chunks: seq<seq<byte>>): set<seq<byte>>
    requires 1 <= |chunks|
    decreases |chunks|
  {
    {TopInput(h, s, chunks)} +
    if |chunks| == 1 then {} else
      var k := Cut(|chunks|);
      TreeInputs(h, s, chunks[..k]) + TreeInputs(h, s, chunks[k..])
  }

  lemma LeavesParts(h: Hash, s: Scheme, chunks: seq<seq<byte>>, k: nat)
    requires k <= |chunks|
    ensures Leaves(h, s, chunks)[..k] == Leaves(h, s, chunks[..k])
    ensures Leaves(h, s, chunks)[k..] == Leaves(h, s, chunks[k..])
  {
    hide LeafInput;
  }

  lemma RootIsTop(h: Hash, s: Scheme, chunks: seq<seq<byte>>)
    requires 1 <= |chunks|
    ensures Root(h, s, chunks) == h(TopInput(h, s, chunks))
  {
    hide NodeInput, LeafInput;
    if |chunks| > 1 {
      hide Leaves;
      LeavesParts(h, s, chunks, Cut(|chunks|));
    }
  }

  /** Equal inputs have equal parts, and only scheme 1 and a chunk of 64 bytes can make a leaf's
      input a node's. */
  lemma InputsDetermine(s: Scheme, c: seq<byte>, c': seq<byte>, l: Digest, r: Digest, l': Digest, r': Digest)
    ensures LeafInput(s, c) == NodeInput(s, l, r) ==> s == Scheme1 && |c| == 64
    ensures LeafInput(s, c) == LeafInput(s, c') ==> c == c'
    ensures NodeInput(s, l, r) == NodeInput(s, l', r') ==> l == l' && r == r'
  {
    var a, b := NodeInput(s, l, r), NodeInput(s, l', r');
    if s == Scheme2 {
      assert LeafInput(s, c)[0] == 0x00 && a[0] == 0x01;
      assert LeafInput(s, c)[1..] == c && LeafInput(s, c')[1..] == c';
      assert a[1..33] == l && a[33..] == r && b[1..33] == l' && b[33..] == r';
    } else {
      assert a[..32] == l && a[32..] == r && b[..32] == l' && b[32..] == r';
    }
  }

  lemma LeafTops(h: Hash, s: Scheme, a: seq<seq<byte>>, b: seq<seq<byte>>)
    requires |a| == |b| == 1 && TopInput(h, s, a) == TopInput(h, s, b)
    ensures a == b
  {
    var d := h([]);
    InputsDetermine(s, a[0], b[0], d, d, d, d);
  }

  lemma MixedTops(h: Hash, s: Scheme, a: seq<seq<byte>>, b: seq<seq<byte>>)
    requires |a| == 1 < |b| && TopInput(h, s, a) == TopInput(h, s, b)
    ensures s == Scheme1 && |a[0]| == 64
  {
    hide Root, LeafInput, NodeInput;
    var l, r := Root(h, s, b[..Cut(|b|)]), Root(h, s, b[Cut(|b|)..]);
    InputsDetermine(s, a[0], a[0], l, r, l, r);
  }

  lemma NodeTops(h: Hash, s: Scheme, a: seq<seq<byte>>, b: seq<seq<byte>>)
    requires 1 < |a| && 1 < |b| && TopInput(h, s, a) == TopInput(h, s, b)
    ensures Root(h, s, a[..Cut(|a|)]) == Root(h, s, b[..Cut(|b|)])
    ensures Root(h, s, a[Cut(|a|)..]) == Root(h, s, b[Cut(|b|)..])
  {
    hide Root, LeafInput, NodeInput;
    var k, l := Cut(|a|), Cut(|b|);
    InputsDetermine(s, [], [], Root(h, s, a[..k]), Root(h, s, a[k..]), Root(h, s, b[..l]), Root(h, s, b[l..]));
  }

  lemma PartInputs(h: Hash, s: Scheme, chunks: seq<seq<byte>>)
    requires 1 < |chunks|
    ensures TreeInputs(h, s, chunks[..Cut(|chunks|)]) <= TreeInputs(h, s, chunks)
    ensures TreeInputs(h, s, chunks[Cut(|chunks|)..]) <= TreeInputs(h, s, chunks)
  {
    hide TopInput;
  }

  /** Two different inputs of the two trees with one hash. */
  ghost predicate Collides(h: Hash, s: Scheme, a: seq<seq<byte>>, b: seq<seq<byte>>, x: seq<byte>, y: seq<byte>)
    requires 1 <= |a| && 1 <= |b|
  {
    x != y && h(x) == h(y) && x in TreeInputs(h, s, a) && y in TreeInputs(h, s, b)
  }

  /** Lists of different lengths, one with a chunk as long as two digests: scheme 1 can take it for a node. */
  predicate Confusable(s: Scheme, a: seq<seq<byte>>, b: seq<seq<byte>>) {
    s == Scheme1 && |a| != |b| && exists c :: c in a + b && |c| == 64
  }

  datatype Comparison = Same | Collision(x: seq<byte>, y: seq<byte>) | Confused

  /** What a comparison of two trees with equal roots says about the lists. */
  ghost predicate Explains(h: Hash, s: Scheme, a: seq<seq<byte>>, b: seq<seq<byte>>, r: Comparison)
    requires 1 <= |a| && 1 <= |b|
  {
    match r
    case Same => a == b
    case Collision(x, y) => Collides(h, s, a, b, x, y)
    case Confused => Confusable(s, a, b)
  }

  /** An explanation other than sameness, carried from one part of both trees to the whole. */
  lemma PartExplains(h: Hash, s: Scheme, a: seq<seq<byte>>, b: seq<seq<byte>>, a': seq<seq<byte>>, b': seq<seq<byte>>,
      r: Comparison)
    requires 1 < |a| && 1 < |b| && r != Same
    requires (a' == a[..Cut(|a|)] && b' == b[..Cut(|b|)]) || (a' == a[Cut(|a|)..] && b' == b[Cut(|b|)..])
    requires Explains(h, s, a', b', r)
    ensures Explains(h, s, a, b, r)
  {
    hide TreeInputs, Cut;
    PartInputs(h, s, a);
    PartInputs(h, s, b);
    if r == Confused {
      var c :| c in a' + b' && |c| == 64;
      assert c in a + b;
    }
  }

  /** Both trees followed down from equal roots, to the first difference. */
  lemma {:induction false} Compare(h: Hash, s: Scheme, a: seq<seq<byte>>, b: seq<seq<byte>>) returns (r: Comparison)
    requires 1 <= |a| && 1 <= |b| && Root(h, s, a) == Root(h, s, b)
    ensures Explains(h, s, a, b, r)
    decreases |a|
  {
    hide Root, TopInput, Cut;
    RootIsTop(h, s, a);
    RootIsTop(h, s, b);
    var x, y := TopInput(h, s, a), TopInput(h, s, b);
    if x != y {
      r := Collision(x, y);
    } else if |a| == 1 && |b| == 1 {
      LeafTops(h, s, a, b);
      r := Same;
    } else if |a| == 1 {
      MixedTops(h, s, a, b);
      assert a[0] in a + b;
      r := Confused;
    } else if |b| == 1 {
      MixedTops(h, s, b, a);
      assert b[0] in a + b;
      r := Confused;
    } else {
      r := CompareParts(h, s, a, b);
    }
  }

  lemma {:induction false} CompareParts(h: Hash, s: Scheme, a: seq<seq<byte>>, b: seq<seq<byte>>)
    returns (r: Comparison)
    requires 1 < |a| && 1 < |b| && TopInput(h, s, a) == TopInput(h, s, b)
    ensures Explains(h, s, a, b, r)
    decreases |a|, 0
  {
    hide Root, TopInput, Cut, Explains;
    NodeTops(h, s, a, b);
    var k, l := Cut(|a|), Cut(|b|);
    r := Compare(h, s, a[..k], b[..l]);
    if r != Same {
      PartExplains(h, s, a, b, a[..k], b[..l], r);
    } else {
      r := Compare(h, s, a[k..], b[l..]);
      if r != Same {
        PartExplains(h, s, a, b, a[k..], b[l..], r);
      } else {
        PartsSame(h, s, a, b, k, l);
      }
    }
  }

  lemma PartsSame(h: Hash, s: Scheme, a: seq<seq<byte>>, b: seq<seq<byte>>, k: nat, l: nat)
    requires 1 <= k < |a| && 1 <= l < |b|
    requires Explains(h, s, a[..k], b[..l], Same) && Explains(h, s, a[k..], b[l..], Same)
    ensures Explains(h, s, a, b, Same)
  {
    assert a == a[..k] + a[k..] && b == b[..l] + b[l..];
  }

  /** Equal roots under scheme 2: the lists are the same, or the trees hash two different inputs to one
      value. Their lengths need not agree. */
  lemma EqualRoots(h: Hash, a: seq<seq<byte>>, b: seq<seq<byte>>) returns (same: bool, x: seq<byte>, y: seq<byte>)
    requires 1 <= |a| && 1 <= |b| && Root(h, Scheme2, a) == Root(h, Scheme2, b)
    ensures same ==> a == b
    ensures !same ==> x != y && h(x) == h(y) && x in TreeInputs(h, Scheme2, a) && y in TreeInputs(h, Scheme2, b)
  {
    hide Root, TreeInputs;
    var r := Compare(h, Scheme2, a, b);
    same, x, y := r == Same, if r.Collision? then r.x else [], if r.Collision? then r.y else [];
  }

  /** Scheme 1 says the same of lists of one length, and of lists without a chunk of 64 bytes. */
  lemma EqualRootsOne(h: Hash, a: seq<seq<byte>>, b: seq<seq<byte>>) returns (same: bool, x: seq<byte>, y: seq<byte>)
    requires 1 <= |a| && 1 <= |b| && Root(h, Scheme1, a) == Root(h, Scheme1, b)
    requires |a| == |b| || forall c :: c in a + b ==> |c| != 64
    ensures same ==> a == b
    ensures !same ==> x != y && h(x) == h(y) && x in TreeInputs(h, Scheme1, a) && y in TreeInputs(h, Scheme1, b)
  {
    hide Root, TreeInputs;
    var r := Compare(h, Scheme1, a, b);
    same, x, y := r == Same, if r.Collision? then r.x else [], if r.Collision? then r.y else [];
  }

  /** With different lengths and such a chunk it fails: a chunk holding two leaf digests has the root of
      the two chunks, and the one tree's only input is hashed by the other tree too. */
  lemma SchemeOneAmbiguous(h: Hash, one: seq<seq<byte>>, two: seq<seq<byte>>)
    requires |two| == 2 && |one| == 1 && one[0] == h(two[0]) + h(two[1])
    ensures one != two && Root(h, Scheme1, one) == Root(h, Scheme1, two)
    ensures TreeInputs(h, Scheme1, one) <= TreeInputs(h, Scheme1, two)
  {
    RootIsTop(h, Scheme1, one);
    RootIsTop(h, Scheme1, two);
    RootIsTop(h, Scheme1, two[..1]);
    RootIsTop(h, Scheme1, two[1..]);
    assert TopInput(h, Scheme1, one) == TopInput(h, Scheme1, two) by { hide Root; }
  }

  // ------------------------------------------------------------ small trees, written out

  /** One, two and three chunks under scheme 2: 0x00 before a leaf, 0x01 before a pair, the third leaf promoted. */
  lemma RootsWrittenOut(h: Hash, a: seq<byte>, b: seq<byte>, c: seq<byte>)
    ensures Root(h, Scheme2, [a]) == h([0x00] + a)
    ensures Root(h, Scheme2, [a, b]) == h([0x01] + h([0x00] + a) + h([0x00] + b))
    ensures Root(h, Scheme2, [a, b, c]) == h([0x01] + h([0x01] + h([0x00] + a) + h([0x00] + b)) + h([0x00] + c))
    ensures Root(h, Scheme1, [a, b]) == h(h(a) + h(b))
  {
    hide Leaves, LeafInput, NodeInput;
    RootOfTwo(h, Scheme2, a, b);
    RootOfTwo(h, Scheme1, a, b);
    RootOfOne(h, Scheme2, a);
    RootOfOne(h, Scheme2, c);
    RootIsTop(h, Scheme2, [a, b, c]);
    assert [a, b, c][..2] == [a, b] && [a, b, c][2..] == [c];
    assert Cut(3) == 2;
    NodeOf(Root(h, Scheme2, [a, b]), Root(h, Scheme2, [c]));
    NodeOf(h([0x00] + a), h([0x00] + b));
    NodeOf(h(a), h(b));
    LeafOf(a);
    LeafOf(b);
    LeafOf(c);
  }

  lemma LeafOf(a: seq<byte>)
    ensures LeafInput(Scheme2, a) == [0x00] + a && LeafInput(Scheme1, a) == a
  {
  }

  lemma NodeOf(l: Digest, r: Digest)
    ensures NodeInput(Scheme2, l, r) == [0x01] + l + r && NodeInput(Scheme1, l, r) == l + r
  {
  }

  lemma RootOfOne(h: Hash, s: Scheme, a: seq<byte>)
    ensures Root(h, s, [a]) == h(LeafInput(s, a))
  {
    RootIsTop(h, s, [a]);
  }

  lemma RootOfTwo(h: Hash, s: Scheme, a: seq<byte>, b: seq<byte>)
    ensures Root(h, s, [a, b]) == h(NodeInput(s, h(LeafInput(s, a)), h(LeafInput(s, b))))
  {
    RootIsTop(h, s, [a, b]);
    RootOfOne(h, s, a);
    RootOfOne(h, s, b);
    hide Root, NodeInput, LeafInput;
    assert [a, b][..1] == [a] && [a, b][1..] == [b];
    assert Cut(2) == 1;
  }
}
