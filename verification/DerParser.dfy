/** The DER parser: accepts exactly the encodings of the trees within its limits, each byte string
    as one tree and each tree from one byte string. */
module DerParser {
  import opened ModArith
  import opened Bits
  import opened DerEncoding

  const MAX_NODES: nat := 0x1_0000
  const MAX_DEPTH: nat := 32

  /** What the parser fills in: the header's fields and where the value stands. */
  datatype Node = Node(tagClass: nat, constructed: bool, tag: nat, headerLen: nat, length: nat, offset: nat,
    children: seq<Node>)

  datatype Header = NoHeader | AHeader(cls: nat, constructed: bool, tag: nat, len: nat, offset: nat)
  datatype Number = NoNumber | ANumber(value: nat, pos: nat)
  datatype Parsed = Failed | One(node: Node, pos: nat, budget: nat)
  datatype ParsedAll = FailedAll | Many(nodes: seq<Node>, budget: nat)

  // ------------------------------------------------------------ the header

  /** Septets from pos on, `tag` read so far. */
  function ReadSeptets(p: seq<byte>, n: nat, pos: nat, tag: nat): (r: Number)
    requires n <= |p|
    ensures r.ANumber? ==> pos < r.pos <= n
    decreases n - pos
  {
    if pos >= n then NoNumber else
      var b := p[pos];
      if tag > TAG_TOP then NoNumber else
        var t := tag * 128 + b % 128;
        if b < 128 then ANumber(t, pos + 1) else ReadSeptets(p, n, pos + 1, t)
  }

  /** The high tag number form: no leading zero septet, nothing the one-byte form could say. */
  function ReadHighTag(p: seq<byte>, n: nat, pos: nat): (r: Number)
    requires n <= |p|
    ensures r.ANumber? ==> pos < r.pos <= n
  {
    if pos >= n || p[pos] % 128 == 0 then NoNumber else
      var r := ReadSeptets(p, n, pos, 0);
      if r.ANumber? && r.value < 31 then NoNumber else r
  }

  function ReadTag(p: seq<byte>, n: nat, pos: nat): (r: Number)
    requires pos < n <= |p|
    ensures r.ANumber? ==> pos < r.pos <= n
  {
    if p[pos] % 32 == 31 then ReadHighTag(p, n, pos + 1) else ANumber(p[pos] % 32, pos + 1)
  }

  /** The length octets: shortest form only, at most seven bytes, within the input. */
  function ReadLength(p: seq<byte>, n: nat, pos: nat): (r: Number)
    requires n <= |p|
    ensures r.ANumber? ==> pos < r.pos <= n && r.value <= n - r.pos
  {
    if pos >= n then NoNumber else
      var b := p[pos];
      if b < 128 then (if b > n - (pos + 1) then NoNumber else ANumber(b, pos + 1)) else
        var k := b % 128;
        if k == 0 || k >= 8 || k > n - (pos + 1) || p[pos + 1] == 0 || (k == 1 && p[pos + 1] < 128) then NoNumber else
          var len := DerEncoding.Number(p[pos + 1..pos + 1 + k]);
          if len > n - (pos + 1 + k) then NoNumber else ANumber(len, pos + 1 + k)
  }

  function ReadHeader(p: seq<byte>, n: nat, pos: nat): (h: Header)
    requires n <= |p|
    ensures h.AHeader? ==> pos + 2 <= h.offset && h.offset + h.len <= n
  {
    if pos >= n then NoHeader else
      var t := ReadTag(p, n, pos);
      if t.NoNumber? || (p[pos] / 64 == 0 && t.value == 0) then NoHeader else
        var l := ReadLength(p, n, t.pos);
        if l.NoNumber? then NoHeader else AHeader(p[pos] / 64, (p[pos] / 32) % 2 == 1, t.value, l.value, l.pos)
  }

  // ------------------------------------------------------------ values

  /** One value: depth and breadth checked first, members parsed within the value's own bytes. */
  function ParseOne(p: seq<byte>, n: nat, pos: nat, depth: nat, budget: nat): (r: Parsed)
    requires n <= |p|
    ensures r.One? ==> pos < r.pos <= n && r.budget < budget
    decreases n - pos, 0
  {
    if depth > MAX_DEPTH || budget == 0 then Failed else
      var h := ReadHeader(p, n, pos);
      if h.NoHeader? then Failed
      else if !h.constructed then
        One(Node(h.cls, false, h.tag, h.offset - pos, h.len, h.offset, []), h.offset + h.len, budget - 1)
      else
        var m := ParseAll(p, h.offset, h.offset + h.len, depth, budget - 1);
        if m.FailedAll? then Failed
        else One(Node(h.cls, true, h.tag, h.offset - pos, h.len, h.offset, m.nodes), h.offset + h.len, m.budget)
  }

  /** Values up to `end` exactly. */
  function ParseAll(p: seq<byte>, pos: nat, end: nat, depth: nat, budget: nat): (r: ParsedAll)
    requires end <= |p|
    ensures r.Many? ==> pos <= end && r.budget <= budget
    decreases end - pos, 1
  {
    if pos >= end then (if pos == end then Many([], budget) else FailedAll) else
      var c := ParseOne(p, end, pos, depth + 1, budget);
      if c.Failed? then FailedAll else
        var m := ParseAll(p, c.pos, end, depth, c.budget);
        if m.FailedAll? then FailedAll else Many([c.node] + m.nodes, m.budget)
  }

  // ------------------------------------------------------------ the tree behind a node

  /** The tree a node stands for, its contents read from the input. */
  function TreeOf(d: Node, p: seq<byte>): Tlv
    decreases d
  {
    if d.constructed then Constructed(d.tagClass, d.tag, TreesOf(d.children, p))
    else Primitive(d.tagClass, d.tag, if d.offset + d.length <= |p| then p[d.offset..d.offset + d.length] else [])
  }

  function TreesOf(ds: seq<Node>, p: seq<byte>): (m: seq<Tlv>)
    decreases ds
  {
    if ds == [] then [] else [TreeOf(ds[0], p)] + TreesOf(ds[1..], p)
  }

  // ------------------------------------------------------------ reading is decoding

  /** What the septet reader consumed continues the tag read so far. */
  lemma {:induction false} SeptetsRead(p: seq<byte>, n: nat, pos: nat, tag: nat)
    requires n <= |p| && ReadSeptets(p, n, pos, tag).ANumber? && (tag > 0 || p[pos] % 128 != 0)
    ensures var r := ReadSeptets(p, n, pos, tag);
      Continued(tag) + p[pos..r.pos] == Septets(r.value) && r.value < TAG_LIMIT
    decreases n - pos
  {
    hide Continued, Septets;
    var r, b := ReadSeptets(p, n, pos, tag), p[pos];
    if b < 128 {
      SeptetsEnd(tag, b);
      assert p[pos..pos + 1] == [b];
    } else {
      ContinuedMore(tag, b);
      SeptetsRead(p, n, pos + 1, tag * 128 + b % 128);
      assert p[pos..r.pos] == [b] + p[pos + 1..r.pos];
      assert Continued(tag) + ([b] + p[pos + 1..r.pos]) == (Continued(tag) + [b]) + p[pos + 1..r.pos];
    }
  }

  lemma ContinuedNone()
    ensures Continued(0) == []
  {
  }

  /** The identifier octets were the tag's only form. */
  lemma TagRead(p: seq<byte>, n: nat, pos: nat)
    requires pos < n <= |p| && ReadTag(p, n, pos).ANumber?
    ensures var r := ReadTag(p, n, pos);
      p[pos] / 64 < 4 && r.value < TAG_LIMIT && p[pos..r.pos] == TagBytes(p[pos] / 64, (p[pos] / 32) % 2 == 1, r.value)
  {
    hide Septets, ReadSeptets;
    var r, id := ReadTag(p, n, pos), p[pos];
    IdParts(id);
    if id % 32 == 31 {
      SeptetsRead(p, n, pos + 1, 0);
      ContinuedNone();
      assert Continued(0) + p[pos + 1..r.pos] == p[pos + 1..r.pos];
      assert p[pos..r.pos] == [id] + p[pos + 1..r.pos];
    } else {
      assert p[pos..pos + 1] == [id];
    }
  }

  lemma IdParts(id: byte)
    ensures id == id / 64 * 64 + (if (id / 32) % 2 == 1 then 32 else 0) + id % 32
  {
  }

  lemma LengthRead(p: seq<byte>, n: nat, pos: nat)
    requires n <= |p| && ReadLength(p, n, pos).ANumber?
    ensures var r := ReadLength(p, n, pos);
      r.value < LENGTH_LIMIT && p[pos..r.pos] == LengthBytes(r.value)
  {
    hide DerEncoding.Number, BigEndian, Power256;
    var r, b := ReadLength(p, n, pos), p[pos];
    if b < 128 {
      assert p[pos..pos + 1] == [b];
    } else {
      var k := b % 128;
      var s := p[pos + 1..pos + 1 + k];
      BytesOfNumber(s);
      NumberRange(s);
      LongLength(s);
      assert p[pos..r.pos] == [b] + s;
    }
  }

  /** A long form that passed the checks says at least 128 and fits seven bytes. */
  lemma LongLength(s: seq<byte>)
    requires 0 < |s| < 8 && s[0] != 0 && (|s| == 1 ==> s[0] >= 128)
    requires Power256(|s| - 1) <= DerEncoding.Number(s) < Power256(|s|)
    ensures 128 <= DerEncoding.Number(s) < LENGTH_LIMIT
  {
    Powers256();
    hide Power256;
    PowerMono(|s|, 7);
    if |s| == 1 {
      assert s[..0] == [];
      assert DerEncoding.Number(s) == DerEncoding.Number(s[..0]) * 256 + s[0];
    } else {
      PowerMono(1, |s| - 1);
    }
  }

  lemma {:induction false} PowerMono(a: nat, b: nat)
    requires a <= b
    ensures Power256(a) <= Power256(b)
    decreases b
  {
    if a < b { PowerMono(a, b - 1); }
  }

  /** The header read is the header encoded. */
  lemma HeaderRead(p: seq<byte>, n: nat, pos: nat)
    requires n <= |p| && ReadHeader(p, n, pos).AHeader?
    ensures var h := ReadHeader(p, n, pos);
      TagOk(h.cls, h.tag) && h.len < LENGTH_LIMIT &&
        p[pos..h.offset] == DerEncoding.Header(h.cls, h.constructed, h.tag, h.len)
  {
    hide ReadTag, ReadLength, TagBytes, LengthBytes;
    var h, t := ReadHeader(p, n, pos), ReadTag(p, n, pos);
    TagRead(p, n, pos);
    LengthRead(p, n, t.pos);
    assert p[pos..h.offset] == p[pos..t.pos] + p[t.pos..h.offset];
  }

  // ------------------------------------------------------------ accepted bytes are the encoding

  lemma SliceJoin(p: seq<byte>, a: nat, b: nat, c: nat)
    requires a <= b <= c <= |p|
    ensures p[a..c] == p[a..b] + p[b..c]
  {
  }

  /** Re-encoding the tree of an accepted value gives back exactly the bytes it was read from. */
  lemma {:induction false} OneSound(p: seq<byte>, n: nat, pos: nat, depth: nat, budget: nat)
    requires n <= |p| && ParseOne(p, n, pos, depth, budget).One?
    ensures var r := ParseOne(p, n, pos, depth, budget);
      var t := TreeOf(r.node, p);
      Fits(t) && p[pos..r.pos] == Encode(t) && Shallow(t, depth) && Nodes(t) == budget - r.budget
    decreases n - pos, 0
  {
    hide ReadHeader, DerEncoding.Header;
    var r, h := ParseOne(p, n, pos, depth, budget), ReadHeader(p, n, pos);
    HeaderRead(p, n, pos);
    SliceJoin(p, pos, h.offset, h.offset + h.len);
    if h.constructed {
      AllSound(p, h.offset, h.offset + h.len, depth, budget - 1);
    }
  }

  lemma {:induction false} AllSound(p: seq<byte>, pos: nat, end: nat, depth: nat, budget: nat)
    requires end <= |p| && ParseAll(p, pos, end, depth, budget).Many?
    ensures var r := ParseAll(p, pos, end, depth, budget);
      var m := TreesOf(r.nodes, p);
      FitsAll(m) && p[pos..end] == EncodeAll(m) && ShallowAll(m, depth + 1) && NodesAll(m) == budget - r.budget
    decreases end - pos, 1
  {
    var r := ParseAll(p, pos, end, depth, budget);
    if pos < end {
      hide TreeOf, Fits, Encode, Shallow, Nodes;
      var c := ParseOne(p, end, pos, depth + 1, budget);
      OneSound(p, end, pos, depth + 1, budget);
      AllSound(p, c.pos, end, depth, c.budget);
      var m := ParseAll(p, c.pos, end, depth, c.budget);
      TreesNext(c.node, m.nodes, p);
      SliceJoin(p, pos, c.pos, end);
      hide ParseOne, ParseAll, TreesOf;
      AllNext(TreeOf(c.node, p), TreesOf(m.nodes, p), depth + 1);
    }
  }

  lemma TreesNext(d: Node, ds: seq<Node>, p: seq<byte>)
    ensures TreesOf([d] + ds, p) == [TreeOf(d, p)] + TreesOf(ds, p)
  {
    hide TreeOf;
    assert ([d] + ds)[1..] == ds;
  }

  lemma AllNext(t: Tlv, m: seq<Tlv>, d: nat)
    requires Fits(t) && FitsAll(m)
    ensures FitsAll([t] + m) && EncodeAll([t] + m) == Encode(t) + EncodeAll(m)
    ensures ShallowAll([t] + m, d) == (Shallow(t, d) && ShallowAll(m, d)) && NodesAll([t] + m) == Nodes(t) + NodesAll(m)
  {
    hide Fits, Encode, Shallow, Nodes;
    assert ([t] + m)[1..] == m;
  }

  // ------------------------------------------------------------ every tree parses back

  /** The continued septets lead the reader to their number. */
  lemma {:induction false} SeptetsWritten(p: seq<byte>, n: nat, pos: nat, u: nat)
    requires pos + |Continued(u)| <= n <= |p| && p[pos..pos + |Continued(u)|] == Continued(u) && u <= TAG_TOP
    ensures ReadSeptets(p, n, pos, 0) == ReadSeptets(p, n, pos + |Continued(u)|, u)
    decreases u
  {
    if u > 0 {
      var v, c := u / 128, Continued(u / 128);
      var q := pos + |c|;
      assert Continued(u) == c + [128 + u % 128];
      assert p[pos..q] == p[pos..pos + |Continued(u)|][..|c|] == c;
      assert p[q] == p[pos..pos + |Continued(u)|][|c|] == 128 + u % 128;
      SeptetsWritten(p, n, pos, v);
      assert p[q] % 128 == u % 128;
      assert v * 128 + u % 128 == u;
    }
  }

  lemma TagWritten(p: seq<byte>, n: nat, pos: nat, cls: nat, cons: bool, tag: nat)
    requires cls < 4 && tag < TAG_LIMIT && pos + |TagBytes(cls, cons, tag)| <= n <= |p|
    requires p[pos..pos + |TagBytes(cls, cons, tag)|] == TagBytes(cls, cons, tag)
    ensures pos < n && p[pos] / 64 == cls && ((p[pos] / 32) % 2 == 1) == cons
    ensures ReadTag(p, n, pos) == ANumber(tag, pos + |TagBytes(cls, cons, tag)|)
  {
    hide Septets, ReadHighTag;
    var s := TagBytes(cls, cons, tag);
    assert p[pos] == p[pos..pos + |s|][0] == s[0];
    IdSplit(cls, cons, if tag < 31 then tag else 31);
    if tag >= 31 {
      assert p[pos + 1..pos + |s|] == p[pos..pos + |s|][1..] == Septets(tag);
      HighTagWritten(p, n, pos + 1, tag);
    }
  }

  lemma IdSplit(cls: nat, cons: bool, low: nat)
    requires cls < 4 && low < 32
    ensures var id := cls * 64 + (if cons then 32 else 0) + low;
      id / 64 == cls && ((id / 32) % 2 == 1) == cons && id % 32 == low
  {
  }

  lemma HighTagWritten(p: seq<byte>, n: nat, pos: nat, tag: nat)
    requires 31 <= tag < TAG_LIMIT && pos + |Septets(tag)| <= n <= |p| && p[pos..pos + |Septets(tag)|] == Septets(tag)
    ensures ReadHighTag(p, n, pos) == ANumber(tag, pos + |Septets(tag)|)
  {
    var s, u := Septets(tag), tag / 128;
    var c := Continued(u);
    var q := pos + |c|;
    assert p[pos] == p[pos..pos + |s|][0] == s[0];
    SeptetsStart(tag);
    assert p[pos..q] == p[pos..pos + |s|][..|c|] == c;
    assert p[q] == p[pos..pos + |s|][|c|] == tag % 128;
    hide Continued;
    SeptetsWritten(p, n, pos, u);
    LastSeptet(p, n, q, u, tag);
  }

  lemma LastSeptet(p: seq<byte>, n: nat, q: nat, u: nat, tag: nat)
    requires q < n <= |p| && p[q] == tag % 128 && u == tag / 128 && u <= TAG_TOP
    ensures ReadSeptets(p, n, q, u) == ANumber(tag, q + 1)
  {
    assert p[q] % 128 == tag % 128;
  }

  lemma LengthWritten(p: seq<byte>, n: nat, pos: nat, len: nat)
    requires len < LENGTH_LIMIT && pos + |LengthBytes(len)| + len <= n <= |p|
    requires p[pos..pos + |LengthBytes(len)|] == LengthBytes(len)
    ensures ReadLength(p, n, pos) == ANumber(len, pos + |LengthBytes(len)|)
  {
    var s := LengthBytes(len);
    assert p[pos] == p[pos..pos + |s|][0] == s[0];
    if len >= 128 {
      var b := BigEndian(len);
      var k := |b|;
      Powers256();
      ShortNumber(len, 7);
      assert p[pos + 1..pos + 1 + k] == p[pos..pos + |s|][1..] == b;
      assert p[pos + 1] == b[0];
      NumberOfBytes(len);
      hide BigEndian, DerEncoding.Number;
      assert (128 + k) % 128 == k;
      if k == 1 { OneByte(b); }
    }
  }

  lemma OneByte(b: seq<byte>)
    requires |b| == 1
    ensures DerEncoding.Number(b) == b[0]
  {
    assert b[..0] == [];
    assert DerEncoding.Number(b) == DerEncoding.Number(b[..0]) * 256 + b[0];
  }

  lemma HeaderWritten(p: seq<byte>, n: nat, pos: nat, cls: nat, cons: bool, tag: nat, len: nat)
    requires TagOk(cls, tag) && len < LENGTH_LIMIT && pos + |DerEncoding.Header(cls, cons, tag, len)| + len <= n <= |p|
    requires p[pos..pos + |DerEncoding.Header(cls, cons, tag, len)|] == DerEncoding.Header(cls, cons, tag, len)
    ensures ReadHeader(p, n, pos) == AHeader(cls, cons, tag, len, pos + |DerEncoding.Header(cls, cons, tag, len)|)
  {
    hide TagBytes, LengthBytes, ReadTag, ReadLength;
    var a, b := TagBytes(cls, cons, tag), LengthBytes(len);
    var q := pos + |a|;
    var s := p[pos..pos + |DerEncoding.Header(cls, cons, tag, len)|];
    assert p[pos..q] == s[..|a|] == a;
    assert p[q..q + |b|] == s[|a|..] == b;
    TagWritten(p, n, pos, cls, cons, tag);
    LengthWritten(p, n, q, len);
  }

  /** The bytes at pos are the tree's encoding, and it is within every limit. */
  ghost predicate Stands(p: seq<byte>, n: nat, pos: nat, depth: nat, budget: nat, t: Tlv) {
    n <= |p| && Fits(t) && Shallow(t, depth) && Nodes(t) <= budget
    && pos + |Encode(t)| <= n && p[pos..pos + |Encode(t)|] == Encode(t)
  }

  ghost predicate StandAll(p: seq<byte>, pos: nat, end: nat, depth: nat, budget: nat, m: seq<Tlv>) {
    pos <= end <= |p| && FitsAll(m) && ShallowAll(m, depth + 1) && NodesAll(m) <= budget && p[pos..end] == EncodeAll(m)
  }

  /** Every tree within the limits parses back from its encoding. */
  lemma {:induction false} OneComplete(p: seq<byte>, n: nat, pos: nat, depth: nat, budget: nat, t: Tlv)
    requires Stands(p, n, pos, depth, budget, t)
    ensures var r := ParseOne(p, n, pos, depth, budget);
      r.One? && r.pos == pos + |Encode(t)| && r.budget == budget - Nodes(t) && TreeOf(r.node, p) == t
    decreases t
  {
    hide ReadHeader, DerEncoding.Header;
    var s := Encode(t);
    match t {
      case Primitive(c, g, b) =>
        var h := DerEncoding.Header(c, false, g, |b|);
        PartsOf(p, pos, s, h, b);
        HeaderWritten(p, n, pos, c, false, g, |b|);
      case Constructed(c, g, m) =>
        var e := EncodeAll(m);
        var h := DerEncoding.Header(c, true, g, |e|);
        PartsOf(p, pos, s, h, e);
        HeaderWritten(p, n, pos, c, true, g, |e|);
        AllComplete(p, pos + |h|, pos + |h| + |e|, depth, budget - 1, m);
    }
  }

  lemma PartsOf(p: seq<byte>, pos: nat, s: seq<byte>, a: seq<byte>, b: seq<byte>)
    requires s == a + b && pos + |s| <= |p| && p[pos..pos + |s|] == s
    ensures p[pos..pos + |a|] == a && p[pos + |a|..pos + |a| + |b|] == b
  {
    var t := p[pos..pos + |s|];
    assert t[..|a|] == a && t[|a|..] == b;
    assert p[pos..pos + |a|] == t[..|a|];
    assert p[pos + |a|..pos + |a| + |b|] == t[|a|..];
  }

  lemma {:induction false} AllComplete(p: seq<byte>, pos: nat, end: nat, depth: nat, budget: nat, m: seq<Tlv>)
    requires StandAll(p, pos, end, depth, budget, m)
    ensures var r := ParseAll(p, pos, end, depth, budget);
      r.Many? && r.budget == budget - NodesAll(m) && TreesOf(r.nodes, p) == m
    decreases m
  {
    if m == [] {
      hide ParseOne;
      assert pos == end;
    } else {
      hide NodesAll, ParseOne, ParseAll, TreeOf, TreesOf, Fits, FitsAll, Encode, EncodeAll, Shallow, ShallowAll,
        Nodes, StandAll, Stands;
      var t, rest := m[0], m[1..];
      FirstStands(p, pos, end, depth, budget, m);
      var q := pos + |Encode(t)|;
      OneComplete(p, end, pos, depth + 1, budget, t);
      AllComplete(p, q, end, depth, budget - Nodes(t), rest);
      var c := ParseOne(p, end, pos, depth + 1, budget);
      var s := ParseAll(p, q, end, depth, budget - Nodes(t));
      ParseAllNext(p, pos, end, depth, budget, c, s);
      TreesNext(c.node, s.nodes, p);
      assert m == [t] + rest;
    }
  }

  lemma ParseAllNext(p: seq<byte>, pos: nat, end: nat, depth: nat, budget: nat, c: Parsed, s: ParsedAll)
    requires pos < end <= |p| && c == ParseOne(p, end, pos, depth + 1, budget) && c.One?
    requires s == ParseAll(p, c.pos, end, depth, c.budget) && s.Many?
    ensures ParseAll(p, pos, end, depth, budget) == Many([c.node] + s.nodes, s.budget)
  {
    hide ParseOne;
  }

  lemma FirstStands(p: seq<byte>, pos: nat, end: nat, depth: nat, budget: nat, m: seq<Tlv>)
    requires StandAll(p, pos, end, depth, budget, m) && m != []
    ensures Stands(p, end, pos, depth + 1, budget, m[0]) && Fits(m[0]) && Nodes(m[0]) <= budget
    ensures StandAll(p, pos + |Encode(m[0])|, end, depth, budget - Nodes(m[0]), m[1..])
    ensures pos < end <= |p| && FitsAll(m) && NodesAll(m) == Nodes(m[0]) + NodesAll(m[1..])
  {
    hide Encode, Fits, Shallow, Nodes;
    PartsOf(p, pos, EncodeAll(m), Encode(m[0]), EncodeAll(m[1..]));
  }

  // ------------------------------------------------------------ whole inputs

  /** Accepted: one value, and nothing after it. */
  predicate Accepted(p: seq<byte>) {
    var r := ParseOne(p, |p|, 0, 0, MAX_NODES);
    r.One? && r.pos == |p|
  }

  function TreeIn(p: seq<byte>): Tlv
    requires Accepted(p)
  {
    TreeOf(ParseOne(p, |p|, 0, 0, MAX_NODES).node, p)
  }

  /** The trees the parser has room for. */
  predicate Parseable(t: Tlv) { Fits(t) && Shallow(t, 0) && Nodes(t) <= MAX_NODES }

  /** Accepted inputs are exactly the encodings of the parseable trees, and give those trees back. */
  lemma AcceptsEncodings(p: seq<byte>, t: Tlv)
    ensures Accepted(p) && TreeIn(p) == t <==> Parseable(t) && p == Encode(t)
  {
    hide ParseOne, Encode, TreeOf, Fits, Shallow, Nodes;
    assert p[0..|p|] == p;
    if Accepted(p) { OneSound(p, |p|, 0, 0, MAX_NODES); }
    if Parseable(t) && p == Encode(t) { OneComplete(p, |p|, 0, 0, MAX_NODES, t); }
  }

  /** One tree, one byte string. */
  lemma OneEncoding(p: seq<byte>, q: seq<byte>)
    requires Accepted(p) && Accepted(q) && TreeIn(p) == TreeIn(q)
    ensures p == q
  {
    hide ParseOne, Encode, TreeOf, Accepted, TreeIn;
    AcceptsEncodings(p, TreeIn(p));
    AcceptsEncodings(q, TreeIn(q));
  }

  // ------------------------------------------------------------ the parser, in place

  /** The position and the breadth budget every level of the recursion shares. */
  class Cursor {
    var pos: nat
    var budget: nat

    constructor (pos: nat, budget: nat)
      ensures this.pos == pos && this.budget == budget
    {
      this.pos := pos;
      this.budget := budget;
    }
  }

  /** The septet loop of the high tag form. */
  method TakeSeptets(p: seq<byte>, n: nat, c: Cursor) returns (ok: bool, tag: nat)
    requires n <= |p|
    modifies c`pos
    ensures var r := ReadSeptets(p, n, old(c.pos), 0);
      ok == r.ANumber? && (ok ==> tag == r.value && c.pos == r.pos)
  {
    tag := 0;
    ghost var start := c.pos;
    while true
      invariant ReadSeptets(p, n, start, 0) == ReadSeptets(p, n, c.pos, tag)
      decreases n - c.pos
    {
      if c.pos >= n { return false, tag; }
      var b := p[c.pos];
      if tag > TAG_TOP { return false, tag; }
      c.pos := c.pos + 1;
      tag := tag * 128 + b % 128;
      if b < 128 { return true, tag; }
    }
  }

  method TakeTag(p: seq<byte>, n: nat, c: Cursor) returns (ok: bool, cls: nat, cons: bool, tag: nat)
    requires c.pos < n <= |p|
    modifies c`pos
    ensures var r := ReadTag(p, n, old(c.pos));
      ok == r.ANumber? && (ok ==> tag == r.value && c.pos == r.pos) &&
      (ok ==> cls == p[old(c.pos)] / 64 && cons == ((p[old(c.pos)] / 32) % 2 == 1))
  {
    hide ReadSeptets;
    var id := p[c.pos];
    c.pos := c.pos + 1;
    cls, cons, tag, ok := id / 64, (id / 32) % 2 == 1, id % 32, true;
    if tag == 31 {
      if c.pos >= n || p[c.pos] % 128 == 0 { return false, cls, cons, tag; }
      ok, tag := TakeSeptets(p, n, c);
      if ok && tag < 31 { ok := false; }
    }
  }

  /** The length octets, folded in byte by byte. */
  method TakeLength(p: seq<byte>, n: nat, c: Cursor) returns (ok: bool, len: nat)
    requires n <= |p|
    modifies c`pos
    ensures var r := ReadLength(p, n, old(c.pos));
      ok == r.ANumber? && (ok ==> len == r.value && c.pos == r.pos)
  {
    ghost var start := c.pos;
    ok, len := false, 0;
    if c.pos >= n { return; }
    len := p[c.pos];
    c.pos := c.pos + 1;
    if len >= 128 {
      var k := len % 128;
      if k == 0 || k >= 8 || k > n - c.pos { return; }
      if p[c.pos] == 0 || (k == 1 && p[c.pos] < 128) { return; }
      ghost var q := c.pos;
      len := 0;
      for i := 0 to k
        invariant c.pos == q + i && len == DerEncoding.Number(p[q..q + i])
      {
        assert p[q..q + i + 1][..i] == p[q..q + i];
        len := len * 256 + p[c.pos];
        c.pos := c.pos + 1;
      }
    }
    ok := len <= n - c.pos;
  }

  /** One value, the cursor and the budget advanced as it goes. */
  method ParseOneValue(p: seq<byte>, n: nat, c: Cursor, depth: nat) returns (ok: bool, node: Node)
    requires n <= |p|
    modifies c
    ensures var r := ParseOne(p, n, old(c.pos), depth, old(c.budget));
      ok == r.One? && (ok ==> node == r.node && c.pos == r.pos && c.budget == r.budget)
    decreases n - c.pos, 0
  {
    hide ReadTag, ReadLength, ParseAll;
    node := Node(0, false, 0, 0, 0, 0, []);
    ok := false;
    if depth > MAX_DEPTH || c.budget == 0 { return; }
    c.budget := c.budget - 1;
    if c.pos >= n { return; }
    var start := c.pos;
    var good, cls, cons, tag := TakeTag(p, n, c);
    if !good || (cls == 0 && tag == 0) { return; }
    var len;
    good, len := TakeLength(p, n, c);
    if !good { return; }
    var offset := c.pos;
    var members: seq<Node> := [];
    if cons {
      good, members := ParseMembers(p, offset, len, c, depth);
      if !good { return; }
    }
    c.pos := offset + len;
    ok, node := true, Node(cls, cons, tag, offset - start, len, offset, members);
  }

  /** Values until the end of the enclosing one. */
  method ParseMembers(p: seq<byte>, start: nat, len: nat, c: Cursor, depth: nat) returns (ok: bool, nodes: seq<Node>)
    requires start + len <= |p|
    modifies c
    ensures var r := ParseAll(p, start, start + len, depth, old(c.budget));
      ok == r.Many? && (ok ==> nodes == r.nodes && c.budget == r.budget)
    decreases len, 1
  {
    var end := start + len;
    c.pos := start;
    nodes := [];
    ghost var all := ParseAll(p, start, end, depth, c.budget);
    while c.pos < end
      invariant start <= c.pos <= end
      invariant Resumes(all, nodes, ParseAll(p, c.pos, end, depth, c.budget))
      decreases end - c.pos
    {
      hide ParseOne, ParseAll, Resumes;
      NextMember(p, c.pos, end, depth, c.budget, all, nodes);
      var good, child := ParseOneValue(p, end, c, depth + 1);
      if !good { return false, nodes; }
      nodes := nodes + [child];
    }
    ok := c.pos == end;
  }

  /** One member of the loop, failed or collected. */
  lemma NextMember(p: seq<byte>, pos: nat, end: nat, depth: nat, budget: nat, all: ParsedAll, nodes: seq<Node>)
    requires pos < end <= |p| && Resumes(all, nodes, ParseAll(p, pos, end, depth, budget))
    ensures var c := ParseOne(p, end, pos, depth + 1, budget);
      (c.Failed? ==> all.FailedAll?)
      && (c.One? ==> Resumes(all, nodes + [c.node], ParseAll(p, c.pos, end, depth, c.budget)))
  {
    hide ParseOne;
    var c := ParseOne(p, end, pos, depth + 1, budget);
    if c.One? {
      var m := ParseAll(p, c.pos, end, depth, c.budget);
      if m.Many? { assert nodes + ([c.node] + m.nodes) == nodes + [c.node] + m.nodes; }
    }
  }

  /** The whole is what has been collected and the rest. */
  ghost predicate Resumes(all: ParsedAll, nodes: seq<Node>, rest: ParsedAll) {
    all == if rest.FailedAll? then FailedAll else Many(nodes + rest.nodes, rest.budget)
  }

  /** The entry: one value filling the input. */
  method Parse(p: seq<byte>) returns (ok: bool, root: Node)
    ensures ok == Accepted(p)
    ensures ok ==> root == ParseOne(p, |p|, 0, 0, MAX_NODES).node && TreeOf(root, p) == TreeIn(p)
  {
    hide ParseOne, TreeOf;
    var c := new Cursor(0, MAX_NODES);
    ok, root := ParseOneValue(p, |p|, c, 0);
    if ok && c.pos != |p| { ok := false; }
  }
}
