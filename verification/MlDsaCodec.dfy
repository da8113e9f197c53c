/** The key and signature encodings as the code walks them, and the hash calls. */
module MlDsaCodec {
  import opened Options
  import opened ModArith
  import opened MlDsaModulus
  import opened Bits
  import opened Radix
  import opened MlDsaParams
  import opened MlDsaRounding
  import opened MlDsaPacking
  import opened MlDsaHints
  import opened MlDsaScheme
  import KeccakSponge

  // ------------------------------------------------------------ vectors of packed polynomials

  lemma StoreTail(v: Vec, i: nat, c: int, w: nat)
    requires i < |v|
    ensures StoreVec(v[i..], c, w) == Bytes(StorePoly(v[i], c, w)) + StoreVec(v[i + 1..], c, w)
  {
    assert v[i..][1..] == v[i + 1..];
  }

  lemma StoreEnds(v: Vec, c: int, w: nat)
    ensures v[0..] == v && StoreVec(v[|v|..], c, w) == []
  {
  }

  lemma LoadTail(s: seq<byte>, n: nat, c: int, w: nat)
    requires 0 < n && |s| == n * (32 * w)
    ensures 32 * w <= |s| && |s[32 * w..]| == (n - 1) * (32 * w)
    ensures LoadVec(s, n, c, w) == [LoadPoly(s[..32 * w], c, w)] + LoadVec(s[32 * w..], n - 1, c, w)
  {
    FirstFits(n, 32 * w);
  }

  method LoadEtaVec(p: Params, s: seq<byte>, n: nat) returns (v: Vec)
    requires |s| == n * p.EtaBytes()
    ensures v == LoadVec(s, n, p.Eta(), p.EtaBits())
  {
    hide LoadVec, LoadPoly;
    v := [];
    var rest := s;
    var left := n;
    while left > 0
      invariant |rest| == left * p.EtaBytes() &&
        v + LoadVec(rest, left, p.Eta(), p.EtaBits()) == LoadVec(s, n, p.Eta(), p.EtaBits())
    {
      LoadTail(rest, left, p.Eta(), p.EtaBits());
      var t := PolyEtaUnpack(p, rest[..p.EtaBytes()]);
      v, rest, left := v + [t], rest[p.EtaBytes()..], left - 1;
    }
  }

  method LoadT0Vec(s: seq<byte>, n: nat) returns (v: Vec)
    requires |s| == n * 416
    ensures v == LoadVec(s, n, 4096, 13)
  {
    hide LoadVec, LoadPoly;
    v := [];
    var rest := s;
    var left := n;
    while left > 0
      invariant |rest| == left * 416 && v + LoadVec(rest, left, 4096, 13) == LoadVec(s, n, 4096, 13)
    {
      LoadTail(rest, left, 4096, 13);
      var t := PolyT0Unpack(rest[..416]);
      v, rest, left := v + [t], rest[416..], left - 1;
    }
  }

  method LoadZVec(p: Params, s: seq<byte>, n: nat) returns (v: Vec)
    requires |s| == n * p.ZBytes()
    ensures v == LoadVec(s, n, p.Gamma1(), p.ZBits())
  {
    hide LoadVec, LoadPoly;
    v := [];
    var rest := s;
    var left := n;
    while left > 0
      invariant |rest| == left * p.ZBytes() &&
        v + LoadVec(rest, left, p.Gamma1(), p.ZBits()) == LoadVec(s, n, p.Gamma1(), p.ZBits())
    {
      LoadTail(rest, left, p.Gamma1(), p.ZBits());
      var t := PolyZUnpack(p, rest[..p.ZBytes()]);
      v, rest, left := v + [t], rest[p.ZBytes()..], left - 1;
    }
  }

  method StoreZVec(p: Params, v: Vec) returns (s: seq<byte>)
    requires forall i | 0 <= i < |v| :: InRange(v[i], 1 - p.Gamma1(), p.Gamma1())
    ensures s == StoreVec(v, p.Gamma1(), p.ZBits())
  {
    hide StoreVec, StorePoly, InRange;
    s := [];
    StoreEnds(v, p.Gamma1(), p.ZBits());
    for i := 0 to |v|
      invariant s + StoreVec(v[i..], p.Gamma1(), p.ZBits()) == StoreVec(v, p.Gamma1(), p.ZBits())
    {
      StoreTail(v, i, p.Gamma1(), p.ZBits());
      var t := PolyZPack(p, v[i]);
      s := s + t;
    }
  }

  method StoreEtaVec(p: Params, v: Vec) returns (s: seq<byte>)
    requires forall i | 0 <= i < |v| :: InRange(v[i], -(p.Eta() as int), p.Eta())
    ensures s == StoreVec(v, p.Eta(), p.EtaBits())
  {
    hide StoreVec, StorePoly, InRange;
    s := [];
    StoreEnds(v, p.Eta(), p.EtaBits());
    for i := 0 to |v|
      invariant s + StoreVec(v[i..], p.Eta(), p.EtaBits()) == StoreVec(v, p.Eta(), p.EtaBits())
    {
      StoreTail(v, i, p.Eta(), p.EtaBits());
      var t := PolyEtaPack(p, v[i]);
      s := s + t;
    }
  }

  method StoreT0Vec(v: Vec) returns (s: seq<byte>)
    requires forall i | 0 <= i < |v| :: InRange(v[i], -4095, 4096)
    ensures s == StoreVec(v, 4096, 13)
  {
    hide StoreVec, StorePoly, InRange;
    s := [];
    StoreEnds(v, 4096, 13);
    for i := 0 to |v|
      invariant s + StoreVec(v[i..], 4096, 13) == StoreVec(v, 4096, 13)
    {
      StoreTail(v, i, 4096, 13);
      var t := PolyT0Pack(v[i]);
      s := s + t;
    }
  }

  lemma PlainTail(v: Vec, i: nat, w: nat)
    requires i < |v|
    ensures PlainVec(v[i..], w) == Bytes(PackBits(v[i], w, 32 * w)) + PlainVec(v[i + 1..], w)
  {
    assert v[i..][1..] == v[i + 1..];
  }

  lemma PlainEnds(v: Vec, w: nat)
    ensures v[0..] == v && PlainVec(v[|v|..], w) == []
  {
  }

  method StoreW1Vec(p: Params, v: Vec) returns (s: seq<byte>)
    requires forall i | 0 <= i < |v| :: InRange(v[i], 0, Steps(p.GammaDen()) - 1)
    ensures s == PlainVec(v, p.W1Bits())
  {
    hide PlainVec, PackBits, InRange;
    s := [];
    PlainEnds(v, p.W1Bits());
    for i := 0 to |v|
      invariant s + PlainVec(v[i..], p.W1Bits()) == PlainVec(v, p.W1Bits())
    {
      PlainTail(v, i, p.W1Bits());
      var t := PolyW1Pack(p, v[i]);
      s := s + t;
    }
  }

  method StoreT1Vec(v: Vec) returns (s: seq<byte>)
    requires forall i | 0 <= i < |v| :: Digits(v[i], 1024)
    ensures s == PlainVec(v, 10)
  {
    hide PlainVec, PackBits, Digits;
    s := [];
    PlainEnds(v, 10);
    for i := 0 to |v|
      invariant s + PlainVec(v[i..], 10) == PlainVec(v, 10)
    {
      PlainTail(v, i, 10);
      var t := PolyT1Pack(v[i]);
      s := s + t;
    }
  }

  lemma ReadTail(s: seq<byte>, n: nat, w: nat)
    requires 0 < n && |s| == n * (32 * w)
    ensures 32 * w <= |s| && |s[32 * w..]| == (n - 1) * (32 * w)
    ensures ReadPlain(s, n, w) == [UnpackBits(s[..32 * w], w, 256)] + ReadPlain(s[32 * w..], n - 1, w)
  {
    FirstFits(n, 32 * w);
  }

  method LoadT1Vec(s: seq<byte>, n: nat) returns (v: Vec)
    requires |s| == n * 320
    ensures v == ReadPlain(s, n, 10)
  {
    hide ReadPlain, UnpackBits;
    v := [];
    var rest := s;
    var left := n;
    while left > 0
      invariant |rest| == left * 320 && v + ReadPlain(rest, left, 10) == ReadPlain(s, n, 10)
    {
      ReadTail(rest, left, 10);
      var t := PolyT1Unpack(rest[..320]);
      v, rest, left := v + [t], rest[320..], left - 1;
    }
  }

  // ------------------------------------------------------------ keys and signatures

  method ReadSk(p: Params, s: seq<byte>) returns (k: SecretKey)
    requires |s| == p.SkBytes()
    ensures k == UnpackSk(p, s)
  {
    hide LoadVec;
    SumTimes(p.L(), p.K(), p.EtaBytes());
    var a := 128 + p.L() * p.EtaBytes();
    var b := a + p.K() * p.EtaBytes();
    var s1 := LoadEtaVec(p, s[128..a], p.L());
    var s2 := LoadEtaVec(p, s[a..b], p.K());
    var t0 := LoadT0Vec(s[b..], p.K());
    k := SecretKey(s[..32], s[32..64], s[64..128], s1, s2, t0);
  }

  method WriteSig(p: Params, ct: seq<byte>, z: Vec, h: Vec) returns (s: seq<byte>)
    requires |ct| == p.CTilde() && |z| == p.L() && |h| == p.K() && IsHints(h) && HintWeight(h) <= p.Omega()
    requires forall i | 0 <= i < |z| :: InRange(z[i], 1 - p.Gamma1(), p.Gamma1())
    ensures s == SigEncode(p, ct, z, h)
  {
    hide StoreVec, HintBytes, HintWeight, IsHints;
    var a := StoreZVec(p, z);
    var b := PackHints(h, p.Omega());
    HintBytesRange(h, p.Omega());
    s := ct + a + b;
  }

  method ReadSig(p: Params, s: seq<byte>) returns (r: Option<Signature>)
    requires |s| == p.SigBytes()
    ensures r == SigDecode(p, s)
  {
    hide LoadVec, HintRead;
    var a := p.CTilde() + p.L() * p.ZBytes();
    var z := LoadZVec(p, s[p.CTilde()..a], p.L());
    var h := UnpackHints(s[a..], p.Omega());
    if h.None? { return None; }
    r := Some(Signature(s[..p.CTilde()], z, h.value));
  }

  // ------------------------------------------------------------ hashing

  /** SHAKE256 of two strings absorbed one after the other. */
  method HashTwo(a: seq<byte>, b: seq<byte>, len: nat) returns (h: seq<byte>)
    ensures h == KeccakSponge.Shake256(a + b, len)
  {
    hide KeccakSponge.RmblKeccak.Valid, KeccakSponge.Stream, KeccakSponge.Absorbed;
    var st := new KeccakSponge.RmblKeccak(136, 0x1f);
    st.Absorb(a);
    st.Absorb(b);
    st.Finalize();
    h := st.Squeeze(len);
    assert [] + a + b == a + b;
  }

  method HashThree(a: seq<byte>, b: seq<byte>, c: seq<byte>, len: nat) returns (h: seq<byte>)
    ensures h == KeccakSponge.Shake256(a + b + c, len)
  {
    hide KeccakSponge.RmblKeccak.Valid, KeccakSponge.Stream, KeccakSponge.Absorbed;
    var st := new KeccakSponge.RmblKeccak(136, 0x1f);
    st.Absorb(a);
    st.Absorb(b);
    st.Absorb(c);
    st.Finalize();
    h := st.Squeeze(len);
    assert [] + a + b + c == a + b + c;
  }

  /** Overwrite the front of the output buffer. */
  method WriteFront(buf: array<byte>, x: seq<byte>)
    requires |x| <= buf.Length
    modifies buf
    ensures buf[..] == Overlay(old(buf[..]), x)
  {
    for i := 0 to |x|
      invariant buf[..i] == x[..i] && buf[i..] == old(buf[i..])
    {
      buf[i] := x[i];
    }
    assert buf[..] == buf[..|x|] + buf[|x|..];
  }
}
