/** The sponge around Keccak-f: what a byte string absorbs to, one byte at a time, and the
    incremental machine, whose result does not depend on how input and output are cut up. */
module KeccakSponge {
  import opened ModArith
  import opened Bits
  import opened Keccak

  /** A byte at offset k of a lane, as the lane word it is shifted into. */
  function ByteLane(b: byte, k: nat): Lane64
    requires k < 8
  {
    Placed(ByteBits(b), k)
  }

  /** Eight bits at offset 8 k of a lane. */
  function Placed(bits: BitSeq, k: nat): (r: Lane64)
    requires |bits| == 8 && k < 8
    ensures forall i | 0 <= i < 64 :: r[i] == (8 * k <= i < 8 * k + 8 && bits[i - 8 * k])
  {
    seq(64, i requires 0 <= i < 64 => 8 * k <= i < 8 * k + 8 && bits[i - 8 * k])
  }

  /** XOR one byte into position j of the state. */
  function XorByteAt(s: State, j: nat, b: byte): State
    requires j < 200
  {
    s[j / 8 := Xor64(s[j / 8], ByteLane(b, j % 8))]
  }

  /** XOR a run of bytes into the state from position pos. */
  function XorRun(s: State, pos: nat, m: seq<byte>): State
    requires pos + |m| <= 200
    decreases |m|
  {
    if m == [] then s else XorRun(XorByteAt(s, pos, m[0]), pos + 1, m[1..])
  }

  lemma {:induction false} XorRunSplit(s: State, pos: nat, a: seq<byte>, b: seq<byte>)
    requires pos + |a| + |b| <= 200
    ensures XorRun(s, pos, a + b) == XorRun(XorRun(s, pos, a), pos + |a|, b)
    decreases |a|
  {
    hide XorByteAt;
    if a == [] {
      assert a + b == b;
    } else {
      assert (a + b)[0] == a[0] && (a + b)[1..] == a[1..] + b;
      XorRunSplit(XorByteAt(s, pos, a[0]), pos + 1, a[1..], b);
    }
  }

  /** The state and the position in the current block. */
  datatype Cursor = Cursor(s: State, pos: nat)

  predicate ValidRate(rate: nat) { 0 < rate <= 200 }

  /** Absorb one byte: XOR it in, and permute when the block is full. */
  function Feed(c: Cursor, b: byte, rate: nat): (r: Cursor)
    requires ValidRate(rate) && c.pos < rate
    ensures r.pos < rate
  {
    var t := XorByteAt(c.s, c.pos, b);
    if c.pos + 1 == rate then Cursor(KeccakF(t), 0) else Cursor(t, c.pos + 1)
  }

  function FeedAll(c: Cursor, m: seq<byte>, rate: nat): (r: Cursor)
    requires ValidRate(rate) && c.pos < rate
    ensures r.pos < rate
    decreases |m|
  {
    if m == [] then c else FeedAll(Feed(c, m[0], rate), m[1..], rate)
  }

  lemma {:induction false} FeedSplit(c: Cursor, a: seq<byte>, b: seq<byte>, rate: nat)
    requires ValidRate(rate) && c.pos < rate
    ensures FeedAll(c, a + b, rate) == FeedAll(FeedAll(c, a, rate), b, rate)
    decreases |a|
  {
    hide Feed;
    if a == [] {
      assert a + b == b;
    } else {
      assert (a + b)[0] == a[0] && (a + b)[1..] == a[1..] + b;
      FeedSplit(Feed(c, a[0], rate), a[1..], b, rate);
    }
  }

  /** Within one block, feeding is one XOR run; a run that fills the block permutes once. */
  lemma {:induction false} FeedBlock(c: Cursor, m: seq<byte>, rate: nat)
    requires ValidRate(rate) && c.pos < rate && c.pos + |m| <= rate
    ensures FeedAll(c, m, rate) ==
      if c.pos + |m| < rate then Cursor(XorRun(c.s, c.pos, m), c.pos + |m|)
      else Cursor(KeccakF(XorRun(c.s, c.pos, m)), 0)
    decreases |m|
  {
    hide KeccakF, XorByteAt;
    if m != [] {
      if c.pos + 1 < rate {
        FeedBlock(Feed(c, m[0], rate), m[1..], rate);
      } else {
        assert m[1..] == [];
      }
    }
  }

  /** pad10*1 with the domain byte, then the permutation. */
  function Pad(c: Cursor, rate: nat, pad: byte): State
    requires ValidRate(rate) && c.pos < rate
  {
    KeccakF(XorByteAt(XorByteAt(c.s, c.pos, pad), rate - 1, 128))
  }

  function Start(): (c: Cursor)
    ensures c.pos == 0
  {
    Cursor(ZeroState(), 0)
  }

  /** The state a whole message absorbs to. */
  function Absorbed(m: seq<byte>, rate: nat, pad: byte): State
    requires ValidRate(rate)
  {
    Pad(FeedAll(Start(), m, rate), rate, pad)
  }

  function Iterate(s: State, k: nat): State
    decreases k
  {
    if k == 0 then s else Iterate(KeccakF(s), k - 1)
  }

  lemma {:induction false} IterateNext(s: State, k: nat)
    ensures Iterate(s, k + 1) == KeccakF(Iterate(s, k))
    decreases k
  {
    hide KeccakF;
    if k > 0 { IterateNext(KeccakF(s), k - 1); }
  }

  function LaneByte(l: Lane64, k: nat): byte
    requires k < 8
  {
    BitsByte(l[8 * k..8 * k + 8])
  }

  function StateByte(s: State, j: nat): byte
    requires j < 200
  {
    LaneByte(s[j / 8], j % 8)
  }

  /** Byte i of the output stream that starts at state s. */
  function StreamByte(s: State, rate: nat, i: nat): byte
    requires ValidRate(rate)
  {
    RateParts(i, rate);
    StateByte(Iterate(s, i / rate), i % rate)
  }

  lemma RateParts(i: nat, rate: nat)
    requires 0 < rate
    ensures 0 <= i / rate && 0 <= i % rate < rate
  {
    CongMod(i, rate);
  }

  /** Bytes from..from+len-1 of the output stream. */
  function Stream(s: State, rate: nat, from: nat, len: nat): (r: seq<byte>)
    requires ValidRate(rate)
    ensures |r| == len && forall i | 0 <= i < len :: r[i] == StreamByte(s, rate, from + i)
  {
    seq<byte>(len, i requires 0 <= i < len => StreamByte(s, rate, from + i))
  }

  /** SHA-3 and SHAKE: len bytes of the sponge on message m. */
  function Sponge(m: seq<byte>, rate: nat, pad: byte, len: nat): (r: seq<byte>)
    requires ValidRate(rate)
    ensures |r| == len
  {
    Stream(Absorbed(m, rate, pad), rate, 0, len)
  }

  function Shake256(m: seq<byte>, len: nat): (r: seq<byte>)
    ensures |r| == len
  {
    Sponge(m, 136, 0x1f, len)
  }

  // ------------------------------------------------------------ the incremental machine

  /** Eight bytes of a run as one lane: the first n of them in place, zero above. */
  function LaneOf(m: seq<byte>, n: nat): (r: Lane64)
    requires n <= 8 && |m| == 8
    ensures forall i | 0 <= i < 64 :: r[i] == (i < 8 * n && ByteBits(m[i / 8])[i % 8])
  {
    seq(64, i requires 0 <= i < 64 => i < 8 * n && ByteBits(m[i / 8])[i % 8])
  }

  lemma LaneOfNext(m: seq<byte>, n: nat)
    requires n < 8 && |m| == 8
    ensures LaneOf(m, n + 1) == Xor64(LaneOf(m, n), ByteLane(m[n], n))
  {
    hide ByteBits;
    forall i | 0 <= i < 64
      ensures LaneOf(m, n + 1)[i] == Xor64(LaneOf(m, n), ByteLane(m[n], n))[i]
    {
      if 8 * n <= i < 8 * n + 8 { assert i / 8 == n && i % 8 == i - 8 * n; }
    }
  }

  lemma XorAssoc(a: Lane64, b: Lane64, c: Lane64)
    ensures Xor64(Xor64(a, b), c) == Xor64(a, Xor64(b, c))
  {
  }

  /** The whole-lane path: eight aligned bytes absorb as one 64-bit XOR. */
  lemma {:induction false} LaneRun(s: State, w: nat, m: seq<byte>, n: nat)
    requires w < 25 && |m| == 8 && n <= 8
    ensures XorRun(s, 8 * w, m[..n]) == s[w := Xor64(s[w], LaneOf(m, n))]
    decreases n
  {
    if n == 0 {
      LaneRunNone(s, w, m);
    } else {
      hide XorRun, LaneOf, ByteLane, Xor64, XorByteAt;
      LaneRun(s, w, m, n - 1);
      assert m[..n] == m[..n - 1] + [m[n - 1]];
      XorRunSplit(s, 8 * w, m[..n - 1], [m[n - 1]]);
      var t := XorRun(s, 8 * w, m[..n - 1]);
      LaneRunOne(t, 8 * w + n - 1, m[n - 1]);
      LaneByteAt(t, w, n - 1, m[n - 1]);
      LaneOfNext(m, n - 1);
      LaneRunNext(s, w, LaneOf(m, n - 1), ByteLane(m[n - 1], n - 1));
    }
  }

  lemma LaneRunNone(s: State, w: nat, m: seq<byte>)
    requires w < 25 && |m| == 8
    ensures XorRun(s, 8 * w, m[..0]) == s[w := Xor64(s[w], LaneOf(m, 0))]
  {
    assert Xor64(s[w], LaneOf(m, 0)) == s[w];
  }

  lemma LaneRunNext(s: State, w: nat, l: Lane64, p: Lane64)
    requires w < 25
    ensures s[w := Xor64(s[w], l)][w := Xor64(Xor64(s[w], l), p)] == s[w := Xor64(s[w], Xor64(l, p))]
  {
    XorAssoc(s[w], l, p);
  }

  lemma LaneByteAt(t: State, w: nat, k: nat, b: byte)
    requires w < 25 && k < 8
    ensures XorByteAt(t, 8 * w + k, b) == t[w := Xor64(t[w], ByteLane(b, k))]
  {
    hide Xor64, ByteLane;
    assert (8 * w + k) / 8 == w && (8 * w + k) % 8 == k;
  }

  lemma LaneRunOne(s: State, j: nat, b: byte)
    requires j < 200
    ensures XorRun(s, j, [b]) == XorByteAt(s, j, b)
  {
    assert [b][1..] == [];
  }

  lemma RunExtends(s: State, pos: nat, m: seq<byte>, i: nat)
    requires pos + |m| <= 200 && i < |m|
    ensures XorRun(s, pos, m[..i + 1]) == XorByteAt(XorRun(s, pos, m[..i]), pos + i, m[i])
  {
    hide XorByteAt, XorRun;
    assert m[..i + 1] == m[..i] + [m[i]];
    XorRunSplit(s, pos, m[..i], [m[i]]);
    LaneRunOne(XorRun(s, pos, m[..i]), pos + i, m[i]);
  }

  lemma RunExtendsLane(s: State, pos: nat, m: seq<byte>, i: nat, w: nat)
    requires pos + |m| <= 200 && i + 8 <= |m| && pos + i == 8 * w
    ensures var t := XorRun(s, pos, m[..i]);
      w < 25 && XorRun(s, pos, m[..i + 8]) == t[w := Xor64(t[w], LaneOf(m[i..i + 8], 8))]
  {
    hide XorByteAt, XorRun, LaneOf, Xor64;
    var block := m[i..i + 8];
    assert m[..i + 8] == m[..i] + block && block[..8] == block;
    XorRunSplit(s, pos, m[..i], block);
    LaneRun(XorRun(s, pos, m[..i]), w, block, 8);
  }

  /** The absorb loop of one block: whole lanes when aligned, single bytes otherwise. */
  method XorInto(s: array<Lane64>, pos: nat, m: seq<byte>)
    requires s.Length == 25 && pos + |m| <= 200
    modifies s
    ensures StateOf(s) == XorRun(old(StateOf(s)), pos, m)
  {
    hide XorByteAt, XorRun, LaneOf, Xor64, ByteLane;
    ghost var before := StateOf(s);
    var i := 0;
    RunStart(before, pos, m);
    if pos % 8 == 0 {
      while i + 8 <= |m|
        invariant 0 <= i <= |m| && i % 8 == 0
        invariant StateOf(s) == XorRun(before, pos, m[..i])
      {
        var j := pos + i;
        var v := GatherLane(m[i..i + 8]);
        RunExtendsLane(before, pos, m, i, j / 8);
        s[j / 8] := Xor64(s[j / 8], v);
        assert StateOf(s) == XorRun(before, pos, m[..i + 8]);
        i := i + 8;
      }
    }
    while i < |m|
      invariant 0 <= i <= |m|
      invariant StateOf(s) == XorRun(before, pos, m[..i])
    {
      var j := pos + i;
      RunExtends(before, pos, m, i);
      XorSingle(s, j, m[i]);
      i := i + 1;
    }
    assert m[..i] == m;
  }

  lemma RunStart(s: State, pos: nat, m: seq<byte>)
    requires pos + |m| <= 200
    ensures XorRun(s, pos, m[..0]) == s
  {
  }

  method XorSingle(s: array<Lane64>, j: nat, b: byte)
    requires s.Length == 25 && j < 200
    modifies s
    ensures StateOf(s) == XorByteAt(old(StateOf(s)), j, b)
  {
    s[j / 8] := Xor64(s[j / 8], ByteLane(b, j % 8));
  }

  /** v |= in[k] << (8 k), for the eight bytes of a lane. */
  method GatherLane(m: seq<byte>) returns (v: Lane64)
    requires |m| == 8
    ensures v == LaneOf(m, 8)
  {
    hide ByteLane;
    v := Zeros(64);
    assert v == LaneOf(m, 0);
    hide LaneOf;
    for k := 0 to 8
      invariant v == LaneOf(m, k)
    {
      LaneOfNext(m, k);
      v := Xor64(v, ByteLane(m[k], k));
    }
  }

  /** The exposed sponge state: absorb any number of pieces, finalize, squeeze any number of
      pieces. `input` and `offset` are the bytes absorbed and squeezed so far. */
  class RmblKeccak {
    const s: array<Lane64>
    const rate: nat
    const pad: byte
    var pos: nat
    var squeezing: bool
    ghost var input: seq<byte>
    ghost var offset: nat
    ghost var block: nat

    ghost predicate Valid()
      reads this, s
    {
      s.Length == 25 && ValidRate(rate) && pos <= rate
      && (!squeezing ==> pos < rate && Cursor(StateOf(s), pos) == FeedAll(Start(), input, rate) && offset == 0)
      && (squeezing ==> StateOf(s) == Iterate(Absorbed(input, rate, pad), block) && offset == block * rate + pos)
    }

    constructor (rate: nat, pad: byte)
      requires ValidRate(rate)
      ensures Valid() && fresh(s) && this.rate == rate && this.pad == pad
      ensures !squeezing && input == [] && offset == 0
    {
      s := new Lane64[25](_ => Zeros(64));
      this.rate, this.pad := rate, pad;
      pos, squeezing := 0, false;
      input, offset, block := [], 0, 0;
      new;
      assert StateOf(s) == ZeroState();
    }

    /** Bytes that fit the current block; a full block is permuted. */
    method AbsorbPiece(piece: seq<byte>)
      requires Valid() && !squeezing && |piece| <= rate - pos
      modifies this, s
      ensures Valid() && !squeezing && input == old(input) + piece
    {
      hide KeccakF, XorRun, Feed, FeedAll, Start, Absorbed, Iterate;
      FeedBlock(Cursor(StateOf(s), pos), piece, rate);
      FeedSplit(Start(), input, piece, rate);
      XorInto(s, pos, piece);
      pos := pos + |piece|;
      if pos == rate {
        KeccakF1600(s);
        pos := 0;
      }
      input := input + piece;
    }

    method Absorb(m: seq<byte>)
      requires Valid() && !squeezing
      modifies this, s
      ensures Valid() && !squeezing && input == old(input) + m
    {
      hide KeccakF, XorRun, Feed, FeedAll, Start, Absorbed, Iterate;
      var rest := m;
      ghost var done: seq<byte> := [];
      assert input + [] == input;
      while |rest| > 0
        invariant Valid() && !squeezing && done + rest == m && input == old(input) + done
        decreases |rest|
      {
        var take := if rate - pos < |rest| then rate - pos else |rest|;
        var piece := rest[..take];
        AbsorbPiece(piece);
        assert rest == piece + rest[take..];
        assert old(input) + (done + piece) == old(input) + done + piece;
        done := done + piece;
        rest := rest[take..];
      }
      assert done == m;
    }

    method Finalize()
      requires Valid() && !squeezing
      modifies this, s
      ensures Valid() && squeezing && offset == 0 && input == old(input)
    {
      hide KeccakF, XorByteAt, FeedAll, Start;
      XorSingle(s, pos, pad);
      XorSingle(s, rate - 1, 128);
      KeccakF1600(s);
      pos, squeezing := 0, true;
      block, offset := 0, 0;
    }

    /** A fresh block of output. */
    method NextBlock()
      requires Valid() && squeezing && pos == rate
      modifies this, s
      ensures Valid() && squeezing && pos == 0 && input == old(input) && offset == old(offset)
    {
      hide KeccakF, Absorbed, Iterate;
      IterateNext(Absorbed(input, rate, pad), block);
      KeccakF1600(s);
      pos := 0;
      assert offset == (block + 1) * rate;
      block := block + 1;
    }

    method Squeeze(len: nat) returns (out: seq<byte>)
      requires Valid()
      modifies this, s
      ensures Valid() && squeezing && input == old(input) && offset == old(offset) + len
      ensures out == Stream(Absorbed(input, rate, pad), rate, old(offset), len)
    {
      hide KeccakF, Absorbed, Iterate, Stream, StateByte;
      if !squeezing { Finalize(); }
      ghost var from := offset;
      ghost var start := Absorbed(input, rate, pad);
      out := [];
      StreamEmpty(start, rate, from);
      while |out| < len
        invariant Valid() && squeezing && input == old(input) && |out| <= len && offset == from + |out|
        invariant out == Stream(start, rate, from, |out|)
        decreases len - |out|
      {
        if pos == rate { NextBlock(); }
        var give := if rate - pos < len - |out| then rate - pos else len - |out|;
        var chunk := ReadBytes(StateOf(s), pos, give);
        StreamChunk(start, rate, from, out, chunk, block, pos);
        out := out + chunk;
        pos := pos + give;
        offset := offset + give;
      }
    }
  }

  lemma StreamEmpty(s: State, rate: nat, from: nat)
    requires ValidRate(rate)
    ensures Stream(s, rate, from, 0) == []
  {
  }

  /** Bytes pos..pos+give-1 of the state. */
  method ReadBytes(s: State, pos: nat, give: nat) returns (out: seq<byte>)
    requires pos + give <= 200
    ensures |out| == give && forall i | 0 <= i < give :: out[i] == StateByte(s, pos + i)
  {
    out := [];
    for i := 0 to give
      invariant |out| == i && forall k | 0 <= k < i :: out[k] == StateByte(s, pos + k)
    {
      out := out + [StateByte(s, pos + i)];
    }
  }

  /** The bytes read from one block continue the stream. */
  lemma StreamChunk(s: State, rate: nat, from: nat, out: seq<byte>, chunk: seq<byte>, block: nat, pos: nat)
    requires ValidRate(rate) && pos + |chunk| <= rate && from + |out| == block * rate + pos
    requires out == Stream(s, rate, from, |out|)
    requires forall i | 0 <= i < |chunk| :: chunk[i] == StateByte(Iterate(s, block), pos + i)
    ensures out + chunk == Stream(s, rate, from, |out + chunk|)
  {
    hide StateByte, Iterate;
    forall i | 0 <= i < |chunk|
      ensures chunk[i] == StreamByte(s, rate, from + |out| + i)
    {
      DivModUnique(from + |out| + i, rate, block, pos + i);
    }
    hide StreamByte;
    var all := out + chunk;
    var st := Stream(s, rate, from, |all|);
    forall i | 0 <= i < |all|
      ensures all[i] == st[i]
    {
      if i >= |out| { assert chunk[i - |out|] == StreamByte(s, rate, from + |out| + (i - |out|)); }
    }
  }
}
