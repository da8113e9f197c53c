/** Where each node of a parsed input stands, the limits in plain numbers, and the octets of the headers as section 8.1
    of X.690 describes them. */
module DerLaws {
  import opened ModArith
  import opened Bits
  import opened DerEncoding
  import opened DerParser

  // ------------------------------------------------------------ where nodes stand

  /** The node's header and value, from its first byte to its last, are the encoding of its tree; the header ends where
      the value begins; and the members of a constructed value fill it one after another, all standing likewise. */
  ghost predicate Located(d: Node, p: seq<byte>)
    decreases d
  {
    d.headerLen <= d.offset && d.offset + d.length <= |p|
    && Spans(d, p, TreeOf(d, p))
    && (d.constructed ==> Tiles(d.children, p, d.offset, d.offset + d.length))
    && LocatedAll(d.children, p)
  }

  ghost predicate LocatedAll(ds: seq<Node>, p: seq<byte>)
    decreases ds
  {
    ds == [] || (Located(ds[0], p) && LocatedAll(ds[1..], p))
  }

  ghost predicate Spans(d: Node, p: seq<byte>, t: Tlv)
    requires d.headerLen <= d.offset && d.offset + d.length <= |p|
  {
    Fits(t) && p[d.offset - d.headerLen..d.offset + d.length] == Encode(t)
    && TagOk(d.tagClass, d.tag) && d.length < LENGTH_LIMIT
    && p[d.offset - d.headerLen..d.offset] == DerEncoding.Header(d.tagClass, d.constructed, d.tag, d.length)
  }

  /** One after another from pos to end, with no gap. */
  ghost predicate Tiles(ds: seq<Node>, p: seq<byte>, pos: nat, end: nat)
    decreases ds
  {
    if ds == [] then pos == end
    else ds[0].offset == pos + ds[0].headerLen && Tiles(ds[1..], p, ds[0].offset + ds[0].length, end)
  }

  /** The node of an accepted value starts where parsing started, ends where it ended, and is located throughout. */
  lemma {:induction false} OneLocated(p: seq<byte>, n: nat, pos: nat, depth: nat, budget: nat)
    requires n <= |p| && ParseOne(p, n, pos, depth, budget).One?
    ensures var r := ParseOne(p, n, pos, depth, budget);
      Located(r.node, p) && r.node.offset == pos + r.node.headerLen && r.node.offset + r.node.length == r.pos
    decreases n - pos, 0
  {
    hide ReadHeader, DerEncoding.Header, Fits, Encode, TreeOf, Tiles, LocatedAll, Shallow, Nodes;
    var r, h := ParseOne(p, n, pos, depth, budget), ReadHeader(p, n, pos);
    HeaderRead(p, n, pos);
    OneSound(p, n, pos, depth, budget);
    if h.constructed {
      AllLocated(p, h.offset, h.offset + h.len, depth, budget - 1);
    } else {
      NoneLocated(p);
    }
  }

  lemma NoneLocated(p: seq<byte>)
    ensures LocatedAll([], p)
  {
  }

  lemma {:induction false} AllLocated(p: seq<byte>, pos: nat, end: nat, depth: nat, budget: nat)
    requires end <= |p| && ParseAll(p, pos, end, depth, budget).Many?
    ensures var r := ParseAll(p, pos, end, depth, budget);
      LocatedAll(r.nodes, p) && Tiles(r.nodes, p, pos, end)
    decreases end - pos, 1
  {
    if pos < end {
      hide Located, ParseOne;
      var c := ParseOne(p, end, pos, depth + 1, budget);
      OneLocated(p, end, pos, depth + 1, budget);
      AllLocated(p, c.pos, end, depth, c.budget);
      var m := ParseAll(p, c.pos, end, depth, c.budget);
      hide ParseAll, Tiles, LocatedAll;
      ConsLocated(c.node, m.nodes, p, pos, end);
    }
  }

  lemma ConsLocated(d: Node, ds: seq<Node>, p: seq<byte>, pos: nat, end: nat)
    requires Located(d, p) && LocatedAll(ds, p)
    requires d.offset == pos + d.headerLen && Tiles(ds, p, d.offset + d.length, end)
    ensures LocatedAll([d] + ds, p) && Tiles([d] + ds, p, pos, end)
  {
    hide Located;
    assert ([d] + ds)[1..] == ds;
  }

  // ------------------------------------------------------------ the limits

  /** Levels below the root. */
  function Height(t: Tlv): nat
    decreases t
  {
    match t case Primitive(_, _, _) => 0 case Constructed(_, _, m) => HeightAll(m)
  }

  /** One more than the tallest member, 0 for none. */
  function HeightAll(m: seq<Tlv>): nat
    decreases m
  {
    if m == [] then 0 else
      var a, b := Height(m[0]) + 1, HeightAll(m[1..]);
      if a > b then a else b
  }

  lemma {:induction false} ShallowIs(t: Tlv, d: nat)
    ensures Shallow(t, d) <==> d + Height(t) <= 32
    decreases t
  {
    match t
    case Primitive(_, _, _) =>
    case Constructed(_, _, m) => ShallowAllIs(m, d);
  }

  lemma {:induction false} ShallowAllIs(m: seq<Tlv>, d: nat)
    ensures d <= 32 && ShallowAll(m, d + 1) <==> d <= 32 && d + HeightAll(m) <= 32
    decreases m
  {
    if m != [] {
      hide Shallow, Height;
      ShallowIs(m[0], d + 1);
      ShallowAllIs(m[1..], d);
    }
  }

  /** Accepted with tree t: the encoding of t, at most 32 levels below the root and 65536 values. */
  lemma LimitsAre(p: seq<byte>, t: Tlv)
    ensures Accepted(p) && TreeIn(p) == t <==> Fits(t) && Height(t) <= 32 && Nodes(t) <= 65536 && p == Encode(t)
  {
    hide ParseOne, Encode, TreeOf, Fits, Shallow, Nodes, Height, Accepted, TreeIn;
    AcceptsEncodings(p, t);
    ShallowIs(t, 0);
  }

  // ------------------------------------------------------------ headers

  /** Septets read high first. */
  function SeptetValue(s: seq<byte>): nat {
    if s == [] then 0 else SeptetValue(s[..|s| - 1]) * 128 + s[|s| - 1] % 128
  }

  ghost predicate Marked(s: seq<byte>) { forall i | 0 <= i < |s| :: s[i] >= 128 }

  lemma {:induction false} ContinuedValue(u: nat)
    ensures SeptetValue(Continued(u)) == u && Marked(Continued(u))
  {
    hide SeptetValue;
    if u > 0 {
      ContinuedValue(u / 128);
      SeptetLast(Continued(u / 128), 128 + u % 128);
      MarkedBit(u % 128);
    } else {
      NoSeptets();
    }
  }

  lemma MarkedBit(r: nat)
    requires r < 128
    ensures (128 + r) % 128 == r
  {
  }

  lemma NoSeptets()
    ensures SeptetValue([]) == 0 && Marked([])
  {
  }

  lemma SeptetLast(s: seq<byte>, b: byte)
    ensures SeptetValue(s + [b]) == SeptetValue(s) * 128 + b % 128
  {
    assert (s + [b])[..|s|] == s;
  }

  /** The high tag form: its septets spell the tag, all but the last are marked, and the first is not empty. */
  lemma SeptetsSpell(tag: nat)
    requires tag > 0
    ensures var s := Septets(tag);
      SeptetValue(s) == tag && Marked(s[..|s| - 1]) && s[|s| - 1] < 128 && s[0] % 128 != 0
  {
    hide SeptetValue;
    ContinuedValue(tag / 128);
    SeptetLast(Continued(tag / 128), tag % 128);
    SeptetsStart(tag);
    assert Septets(tag)[..|Septets(tag)| - 1] == Continued(tag / 128);
  }

  /** Identifier octets, section 8.1.2 of X.690: the class in the top two bits, 0x20 for constructed, then the tag, or
      31 and the tag's septets. */
  lemma IdentifierIs(cls: nat, cons: bool, tag: nat) returns (septets: seq<byte>)
    requires TagOk(cls, tag)
    ensures TagBytes(cls, cons, tag) ==
      [64 * cls + (if cons then 32 else 0) + (if tag < 31 then tag else 31)] + septets
    ensures tag < 31 ==> septets == []
    ensures tag >= 31 ==> septets != [] && septets[0] % 128 != 0 && septets[|septets| - 1] < 128
    ensures tag >= 31 ==> SeptetValue(septets) == tag && Marked(septets[..|septets| - 1])
  {
    hide Septets, SeptetValue, Marked;
    septets := if tag < 31 then [] else Septets(tag);
    if tag >= 31 { SeptetsSpell(tag); }
  }

  /** Length octets, section 8.1.3 of X.690 in its shortest form: the length, or 0x80 + k and the length in k bytes,
      high first, with no zero in front. */
  lemma LengthIs(len: nat) returns (bytes: seq<byte>)
    requires len < LENGTH_LIMIT
    ensures LengthBytes(len) == [if len < 128 then len else 128 + |bytes|] + bytes
    ensures len < 128 ==> bytes == []
    ensures len >= 128 ==> 0 < |bytes| <= 7 && bytes[0] != 0 && DerEncoding.Number(bytes) == len
  {
    hide BigEndian, DerEncoding.Number;
    bytes := if len < 128 then [] else BigEndian(len);
    if len >= 128 { LongForm(len); }
  }

  lemma LongForm(len: nat)
    requires 128 <= len < LENGTH_LIMIT
    ensures 0 < |BigEndian(len)| <= 7 && BigEndian(len)[0] != 0 && DerEncoding.Number(BigEndian(len)) == len
  {
    hide DerEncoding.Number;
    NumberOfBytes(len);
    Powers256();
    ShortNumber(len, 7);
  }
}
