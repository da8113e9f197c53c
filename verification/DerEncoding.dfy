/** DER: values as trees, their one encoding, and the two minimal number forms inside it. */
module DerEncoding {
  import opened ModArith
  import opened Bits

  /** A tag-length-value tree: a primitive's bytes or a constructed value's members. */
  datatype Tlv = Primitive(cls: nat, tag: nat, content: seq<byte>) | Constructed(cls: nat, tag: nat, members: seq<Tlv>)

  const TAG_LIMIT: nat := 0x1_0000_0000_0000_0000
  const TAG_TOP: nat := 0x1FF_FFFF_FFFF_FFFF      // ~0UL >> 7
  const LENGTH_LIMIT: nat := 0x100_0000_0000_0000

  // ------------------------------------------------------------ numbers in septets

  /** u in septets, high first, every one marked as continued. */
  function Continued(u: nat): (s: seq<byte>)
    ensures u > 0 ==> |s| > 0
  {
    if u == 0 then [] else Continued(u / 128) + [128 + u % 128]
  }

  /** The shortest septet form of t. */
  function Septets(t: nat): (s: seq<byte>)
    ensures |s| > 0
  {
    Continued(t / 128) + [t % 128]
  }

  /** Its first septet is not zero. */
  lemma {:induction false} ContinuedStart(u: nat)
    requires u > 0
    ensures Continued(u)[0] % 128 != 0
  {
    if u / 128 > 0 { ContinuedStart(u / 128); }
    else { assert Continued(0) == []; assert (128 + u % 128) % 128 == u % 128; }
  }

  lemma SeptetsStart(t: nat)
    requires t > 0
    ensures Septets(t)[0] % 128 != 0
  {
    if t / 128 > 0 { ContinuedStart(t / 128); } else { assert Continued(0) == []; }
  }

  /** One more septet. */
  lemma ContinuedMore(u: nat, b: byte)
    requires b >= 128 && u * 128 + b % 128 > 0
    ensures Continued(u) + [b] == Continued(u * 128 + b % 128)
  {
    var v := u * 128 + b % 128;
    DivModUnique(v, 128, u, b % 128);
    assert b == 128 + b % 128;
  }

  lemma SeptetsEnd(u: nat, b: byte)
    requires b < 128
    ensures Continued(u) + [b] == Septets(u * 128 + b)
  {
    hide Continued, Septets;
    DivModUnique(u * 128 + b, 128, u, b);
    SeptetsIs(u * 128 + b, u, b);
  }

  lemma SeptetsIs(v: nat, u: nat, b: byte)
    requires v / 128 == u && v % 128 == b
    ensures Septets(v) == Continued(u) + [b]
  {
  }

  // ------------------------------------------------------------ numbers in bytes

  /** v in bytes, high first, none for zero. */
  function BigEndian(v: nat): (s: seq<byte>)
    ensures v > 0 ==> |s| > 0 && s[0] != 0
  {
    if v == 0 then [] else
      assert v / 256 == 0 ==> v % 256 == v;
      BigEndian(v / 256) + [v % 256]
  }

  function Number(s: seq<byte>): nat { if s == [] then 0 else Number(s[..|s| - 1]) * 256 + s[|s| - 1] }

  lemma {:induction false} NumberOfBytes(v: nat)
    ensures Number(BigEndian(v)) == v
  {
    if v > 0 {
      NumberOfBytes(v / 256);
      var s := BigEndian(v);
      assert s[..|s| - 1] == BigEndian(v / 256);
    }
  }

  /** Without a leading zero the bytes are the number's shortest form. */
  lemma {:induction false} BytesOfNumber(s: seq<byte>)
    requires s != [] && s[0] != 0
    ensures BigEndian(Number(s)) == s && Number(s) > 0
    decreases |s|
  {
    var t, b := s[..|s| - 1], s[|s| - 1];
    assert s == t + [b];
    if t == [] {
      assert Number(t) == 0;
      assert BigEndian(0) == [];
      DivModUnique(b, 256, 0, b);
    } else {
      BytesOfNumber(t);
      DivModUnique(Number(t) * 256 + b, 256, Number(t), b);
    }
  }

  function Power256(k: nat): nat { if k == 0 then 1 else 256 * Power256(k - 1) }

  lemma {:induction false} ShortNumber(v: nat, k: nat)
    requires v < Power256(k)
    ensures |BigEndian(v)| <= k
    decreases k
  {
    if v > 0 {
      assert k > 0;
      ShortNumber(v / 256, k - 1);
    }
  }

  /** A number in k bytes is below 256^k, and at least 256^(k-1) without a leading zero. */
  lemma {:induction false} NumberRange(s: seq<byte>)
    ensures Number(s) < Power256(|s|)
    ensures s != [] && s[0] != 0 ==> Number(s) >= Power256(|s| - 1)
    decreases |s|
  {
    if s != [] {
      var t := s[..|s| - 1];
      NumberRange(t);
      if t == [] { assert Number(t) == 0; } else { assert t[0] == s[0]; }
    }
  }

  lemma Powers256()
    ensures Power256(1) == 256 && Power256(7) == LENGTH_LIMIT
  {
    assert Power256(3) == 16777216;
  }

  // ------------------------------------------------------------ the encoding

  /** The identifier octets. */
  function TagBytes(cls: nat, constructed: bool, tag: nat): (s: seq<byte>)
    requires cls < 4
    ensures |s| > 0
  {
    var id := cls * 64 + (if constructed then 32 else 0);
    if tag < 31 then [id + tag] else [id + 31] + Septets(tag)
  }

  /** The length octets. */
  function LengthBytes(len: nat): (s: seq<byte>)
    requires len < LENGTH_LIMIT
    ensures |s| > 0
  {
    if len < 128 then [len] else
      Powers256();
      ShortNumber(len, 7);
      [128 + |BigEndian(len)|] + BigEndian(len)
  }

  function Header(cls: nat, constructed: bool, tag: nat, len: nat): (s: seq<byte>)
    requires cls < 4 && len < LENGTH_LIMIT
    ensures |s| >= 2
  {
    TagBytes(cls, constructed, tag) + LengthBytes(len)
  }

  /** Class, tag and content fit the parser's types, and the value is no end-of-contents mark. */
  predicate TagOk(cls: nat, tag: nat) { cls < 4 && tag < TAG_LIMIT && !(cls == 0 && tag == 0) }

  /** Within every limit but depth and breadth. */
  predicate Fits(t: Tlv)
    decreases t, 1
  {
    match t
    case Primitive(c, g, b) => TagOk(c, g) && |b| < LENGTH_LIMIT
    case Constructed(c, g, m) => TagOk(c, g) && FitsAll(m) && |EncodeAll(m)| < LENGTH_LIMIT
  }

  predicate FitsAll(m: seq<Tlv>)
    decreases m, 1
  {
    m == [] || (Fits(m[0]) && FitsAll(m[1..]))
  }

  /** The DER encoding. */
  function Encode(t: Tlv): (s: seq<byte>)
    requires Fits(t)
    ensures |s| >= 2
    decreases t, 2
  {
    match t
    case Primitive(c, g, b) => Header(c, false, g, |b|) + b
    case Constructed(c, g, m) => Header(c, true, g, |EncodeAll(m)|) + EncodeAll(m)
  }

  function EncodeAll(m: seq<Tlv>): (s: seq<byte>)
    requires FitsAll(m)
    decreases m, 2
  {
    if m == [] then [] else Encode(m[0]) + EncodeAll(m[1..])
  }

  /** How many values the tree holds, and how deep it goes. */
  function Nodes(t: Tlv): (n: nat)
    ensures n >= 1
    decreases t
  {
    match t case Primitive(_, _, _) => 1 case Constructed(_, _, m) => 1 + NodesAll(m)
  }

  function NodesAll(m: seq<Tlv>): nat
    decreases m
  {
    if m == [] then 0 else Nodes(m[0]) + NodesAll(m[1..])
  }

  /** A tree whose root stands at depth d stays within depth 32. */
  predicate Shallow(t: Tlv, d: nat)
    decreases t
  {
    d <= 32 && match t case Primitive(_, _, _) => true case Constructed(_, _, m) => ShallowAll(m, d + 1)
  }

  predicate ShallowAll(m: seq<Tlv>, d: nat)
    decreases m
  {
    m == [] || (Shallow(m[0], d) && ShallowAll(m[1..], d))
  }
}
