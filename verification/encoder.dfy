/** The encoding half of `baseN.c`: `_chunk`, `_encoding_group`,
    `_encoding_left`, `baseN_encoding` and `baseN_encoding_length`.

    An output buffer is a `seq<byte>` whose length is the C index `idx`.
    `Stream` is the output with chunking off, the plain run of symbols and
    pads; the theorems below relate the chunked output to it. */
module Encoder {
  import opened Arith
  import opened Bits
  import opened BaseN

  /** `_chunk`: a CRLF goes in when the buffer already holds a positive
      multiple of `ChunkLen` bytes, earlier CRLFs included. */
  function Chunk(p: Params, buf: seq<byte>): seq<byte>
  {
    if p.chunkled && |buf| > 0 && |buf| % ChunkLen == 0 then buf + [CR, LF] else buf
  }

  /** `idx = _chunk(p, buf, idx); buf[idx++] = c;` */
  function Put(p: Params, buf: seq<byte>, c: byte): seq<byte>
  {
    Chunk(p, buf) + [c]
  }

  /** Writes the characters of s one after the other, each through `Put`. */
  function Emit(p: Params, buf: seq<byte>, s: seq<byte>): seq<byte>
    decreases |s|
  {
    if s == [] then buf else Put(p, Emit(p, buf, s[..|s| - 1]), s[|s| - 1])
  }

  /** The symbol values of the `while (bits > 8)` loop of `_encoding_group`:
      each turn lowers `bits` by `bitslen` and takes `(t >> bits) & mask`. */
  function LoopValues(p: Params, t: nat, bits: int): (vs: seq<nat>)
    requires SymbolWidth(p)
    ensures forall i :: 0 <= i < |vs| ==> vs[i] < Pow2(p.bitslen)
    ensures bits <= 8 ==> vs == []
    decreases bits
  {
    if bits > 8 then
      [(t / Pow2(bits - p.bitslen)) % (p.mask + 1)] + LoopValues(p, t, bits - p.bitslen)
    else []
  }

  /** The loop stops once at most 8 bits are left, so it takes the fewest
      turns that cover all but the 8 zero bits at the bottom. */
  lemma {:induction false} LoopValuesCount(p: Params, t: nat, bits: int)
    requires SymbolWidth(p)
    ensures bits > 8 ==>
      bits - 8 <= p.bitslen * |LoopValues(p, t, bits)| < bits - 8 + p.bitslen
    decreases bits
  {
    var b := p.bitslen;
    if bits > 8 {
      var rest := LoopValues(p, t, bits - b);
      LoopValuesCount(p, t, bits - b);
      assert |LoopValues(p, t, bits)| == |rest| + 1;
      MulSuccRight(|rest|, b);
    }
  }

  /** The values `_encoding_group` emits for a block of 1..group bytes: the
      64-bit window holds the block big-endian above one zero byte. */
  function GroupValues(p: Params, block: seq<byte>): (vs: seq<nat>)
    requires Encodable(p)
    requires 1 <= |block| <= p.group
    ensures forall i :: 0 <= i < |vs| ==> vs[i] < Pow2(p.bitslen)
  {
    LoopValues(p, BigEndian(block) * 256, (|block| + 1) * 8)
  }

  /** A block of n bytes yields ceil(8n / bitslen) symbols. */
  lemma {:induction false} GroupValuesCount(p: Params, block: seq<byte>)
    requires Encodable(p)
    requires 1 <= |block| <= p.group
    ensures |GroupValues(p, block)| == CeilDiv(8 * |block|, p.bitslen)
  {
    var n, b := |GroupValues(p, block)|, p.bitslen;
    assert 8 * |block| <= b * n < 8 * |block| + b by {
      LoopValuesCount(p, BigEndian(block) * 256, (|block| + 1) * 8);
    }
    assert n > 0;
    MulSucc(n - 1, b);
    CeilDivOf(8 * |block|, b, n);
  }

  /** A full block yields exactly egroup symbols. */
  lemma {:induction false} FullGroupCount(p: Params, block: seq<byte>)
    requires Encodable(p)
    requires |block| == p.group
    ensures |GroupValues(p, block)| == p.egroup
  {
    GroupValuesCount(p, block);
    CeilDivOf(8 * p.group, p.bitslen, p.egroup);
  }

  /** `_encoding_group`. */
  function EncodeGroup(p: Params, block: seq<byte>, buf: seq<byte>): seq<byte>
    requires Encodable(p)
    requires 1 <= |block| <= p.group
  {
    Emit(p, buf, Symbols(p, GroupValues(p, block)))
  }

  /** The loop of `baseN_encoding` over the `datalen / group` full blocks. */
  function EncodeFull(p: Params, data: seq<byte>, buf: seq<byte>): seq<byte>
    requires Encodable(p)
    decreases |data|
  {
    if |data| < p.group then buf
    else EncodeFull(p, data[p.group..], EncodeGroup(p, data[..p.group], buf))
  }

  /** `egroup - ceil(left*8/bitslen)`: pads owed by a short last block. */
  function PadCount(p: Params, left: nat): (n: nat)
    requires Encodable(p)
    requires 0 < left < p.group
    ensures n + CeilDiv(8 * left, p.bitslen) == p.egroup
  {
    ValidFacts(p);
    CeilDivOf(8 * left, p.bitslen, CeilDiv(8 * left, p.bitslen));
    LeftFits(p, left);
    p.egroup - CeilDiv(8 * left, p.bitslen)
  }

  /** A short block never needs more than egroup - 1 symbols. */
  lemma {:induction false} LeftFits(p: Params, left: nat)
    requires Encodable(p)
    requires 0 < left < p.group
    ensures CeilDiv(8 * left, p.bitslen) < p.egroup
  {
    ValidFacts(p);
    var q, b, e := CeilDiv(8 * left, p.bitslen), p.bitslen, p.egroup;
    if q >= e {
      MulMono(e - 1, q - 1, b);
      MulSucc(e - 1, b);
      assert false;
    }
  }

  /** The `datalen % group` bytes at the end of the data, the block that
      `baseN_encoding` hands to `_encoding_left`. */
  function LeftBlock(p: Params, data: seq<byte>): (block: seq<byte>)
    requires Encodable(p)
    ensures |block| == |data| % p.group < p.group
    ensures |block| <= |data| && data[|data| - |block|..] == block
  {
    ModDrop(|data|, p.group);
    data[|data| - |data| % p.group..]
  }

  /** `_encoding_left`. */
  function EncodeLeft(p: Params, data: seq<byte>, buf: seq<byte>): seq<byte>
    requires Encodable(p)
  {
    var block := LeftBlock(p, data);
    if block == [] then buf
    else
      var written := EncodeGroup(p, block, Chunk(p, buf));
      if p.padding then Emit(p, written, Pads(PadCount(p, |block|))) else written
  }

  /** `baseN_encoding`: the output buffer's contents, `*buflen` its length. */
  function Encoding(p: Params, data: seq<byte>): seq<byte>
    requires Encodable(p)
  {
    if |data| == 0 then [] else EncodeLeft(p, data, EncodeFull(p, data, []))
  }

  /** `baseN_encoding_length`: the buffer size `baseN_work` reserves. */
  function EncodingLength(p: Params, datalen: nat): (len: nat)
    requires Encodable(p)
    ensures len == 0 <==> datalen == 0
  {
    ValidFacts(p);
    if datalen == 0 then 0
    else
      var len := CeilDiv(datalen, p.group) * p.egroup;
      if p.chunkled then len + (len - 1) / ChunkLen * 2 else len
  }

  // ---------------------------------------------------------------------
  // The unbroken symbol stream

  function FullStream(p: Params, data: seq<byte>): seq<byte>
    requires Encodable(p)
    decreases |data|
  {
    if |data| < p.group then []
    else Symbols(p, GroupValues(p, data[..p.group])) + FullStream(p, data[p.group..])
  }

  function LeftStream(p: Params, data: seq<byte>): seq<byte>
    requires Encodable(p)
  {
    var block := LeftBlock(p, data);
    if block == [] then []
    else
      Symbols(p, GroupValues(p, block))
      + (if p.padding then Pads(PadCount(p, |block|)) else [])
  }

  /** The symbols and pads of an encoding, without line breaks. */
  function Stream(p: Params, data: seq<byte>): seq<byte>
    requires Encodable(p)
  {
    FullStream(p, data) + LeftStream(p, data)
  }

  // ---------------------------------------------------------------------
  // Writing through `_chunk`

  lemma {:induction false} EmitAppend(p: Params, buf: seq<byte>, s: seq<byte>, t: seq<byte>)
    ensures Emit(p, buf, s + t) == Emit(p, Emit(p, buf, s), t)
    decreases |t|
  {
    if t == [] {
      assert s + t == s;
    } else {
      var t' := t[..|t| - 1];
      assert (s + t)[..|s + t| - 1] == s + t';
      assert (s + t)[|s + t| - 1] == t[|t| - 1];
      EmitAppend(p, buf, s, t');
    }
  }

  /** With chunking off, writing is plain concatenation. */
  lemma {:induction false} EmitPlain(p: Params, buf: seq<byte>, s: seq<byte>)
    requires !p.chunkled
    ensures Emit(p, buf, s) == buf + s
    decreases |s|
  {
    if s != [] {
      EmitPlain(p, buf, s[..|s| - 1]);
      assert buf + s == (buf + s[..|s| - 1]) + [s[|s| - 1]];
    }
  }

  /** An extra `_chunk` right before a write changes nothing: the second
      call sees an index two past the multiple of 76. */
  lemma {:induction false} EmitAbsorbsChunk(p: Params, buf: seq<byte>, s: seq<byte>)
    requires |s| > 0
    ensures Emit(p, Chunk(p, buf), s) == Emit(p, buf, s)
    decreases |s|
  {
    var s' := s[..|s| - 1];
    if s' == [] {
      assert Chunk(p, Chunk(p, buf)) == Chunk(p, buf) by {
        ChunkTwice(p, buf);
      }
    } else {
      EmitAbsorbsChunk(p, buf, s');
    }
  }

  lemma {:induction false} ChunkTwice(p: Params, buf: seq<byte>)
    ensures Chunk(p, Chunk(p, buf)) == Chunk(p, buf)
  {
    if p.chunkled && |buf| > 0 && |buf| % ChunkLen == 0 {
      ModOfSum(|buf|, ChunkLen, 2);
    }
  }

  /** Short output never reaches the first break. */
  lemma {:induction false} EmitShort(p: Params, s: seq<byte>)
    requires |s| <= ChunkLen
    ensures Emit(p, [], s) == s
    decreases |s|
  {
    if s != [] {
      EmitShort(p, s[..|s| - 1]);
      assert s == s[..|s| - 1] + [s[|s| - 1]];
    }
  }

  lemma {:induction false} EncodeFullStream(p: Params, data: seq<byte>, buf: seq<byte>)
    requires Encodable(p)
    ensures EncodeFull(p, data, buf) == Emit(p, buf, FullStream(p, data))
    decreases |data|
  {
    if |data| >= p.group {
      var syms := Symbols(p, GroupValues(p, data[..p.group]));
      EncodeFullStream(p, data[p.group..], EncodeGroup(p, data[..p.group], buf));
      EmitAppend(p, buf, syms, FullStream(p, data[p.group..]));
    }
  }

  lemma {:induction false} EncodeLeftStream(p: Params, data: seq<byte>, buf: seq<byte>)
    requires Encodable(p)
    ensures EncodeLeft(p, data, buf) == Emit(p, buf, LeftStream(p, data))
  {
    var block := LeftBlock(p, data);
    var left := |block|;
    if left > 0 {
      var syms := Symbols(p, GroupValues(p, block));
      assert |syms| > 0;
      EmitAbsorbsChunk(p, buf, syms);
      if p.padding {
        EmitAppend(p, buf, syms, Pads(PadCount(p, left)));
      } else {
        assert LeftStream(p, data) == syms + [];
        assert syms + [] == syms;
      }
    }
  }

  /** `baseN_encoding` writes the unbroken stream through `_chunk`. */
  lemma {:induction false} EncodingIsEmittedStream(p: Params, data: seq<byte>)
    requires Encodable(p)
    ensures Encoding(p, data) == Emit(p, [], Stream(p, data))
  {
    if |data| > 0 {
      var full := EncodeFull(p, data, []);
      EncodeFullStream(p, data, []);
      EncodeLeftStream(p, data, full);
      EmitAppend(p, [], FullStream(p, data), LeftStream(p, data));
      assert Encoding(p, data) == EncodeLeft(p, data, full);
    } else {
      assert FullStream(p, data) == [];
      assert |data| % p.group == 0;
      assert LeftStream(p, data) == [];
      assert Stream(p, data) == [];
    }
  }

  lemma {:induction false} SymbolsNoBreaks(p: Params, vs: seq<nat>)
    requires Valid(p)
    requires forall i :: 0 <= i < |vs| ==> vs[i] < Pow2(p.bitslen)
    ensures NoBreaks(Symbols(p, vs))
  {
    forall i | 0 <= i < |vs|
      ensures !IsBreak(Symbols(p, vs)[i])
    {
      assert Symbols(p, vs)[i] in p.entable;
    }
  }

  lemma {:induction false} FullStreamNoBreaks(p: Params, data: seq<byte>)
    requires Valid(p)
    ensures NoBreaks(FullStream(p, data))
    decreases |data|
  {
    if |data| >= p.group {
      SymbolsNoBreaks(p, GroupValues(p, data[..p.group]));
      FullStreamNoBreaks(p, data[p.group..]);
    }
  }

  /** The stream holds only alphabet characters and pads. */
  lemma {:induction false} StreamNoBreaks(p: Params, data: seq<byte>)
    requires Valid(p)
    ensures NoBreaks(Stream(p, data))
  {
    FullStreamNoBreaks(p, data);
    var block := LeftBlock(p, data);
    var left := |block|;
    if left > 0 {
      var syms := Symbols(p, GroupValues(p, block));
      SymbolsNoBreaks(p, GroupValues(p, block));
      var pads := if p.padding then Pads(PadCount(p, left)) else [];
      assert NoBreaks(pads);
      NoBreaksAppend(syms, pads);
      assert LeftStream(p, data) == syms + pads;
    }
    NoBreaksAppend(FullStream(p, data), LeftStream(p, data));
  }

  lemma {:induction false} NoBreaksAppend(a: seq<byte>, b: seq<byte>)
    requires NoBreaks(a) && NoBreaks(b)
    ensures NoBreaks(a + b)
  {
    forall i | 0 <= i < |a + b|
      ensures !IsBreak((a + b)[i])
    {
      if i < |a| {
        assert (a + b)[i] == a[i];
      } else {
        assert (a + b)[i] == b[i - |a|];
      }
    }
  }

  // ---------------------------------------------------------------------
  // Where the breaks go

  /** CR sits exactly at the positive multiples of 76 and LF right after
      each CR; nothing else is a break. */
  predicate BreakLayout(out: seq<byte>)
  {
    forall i :: 0 <= i < |out| ==>
      (out[i] == CR <==> i > 0 && i % ChunkLen == 0)
      && (out[i] == LF <==> i > ChunkLen && i % ChunkLen == 1)
  }

  lemma {:induction false} PutKeepsLayout(p: Params, buf: seq<byte>, c: byte)
    requires p.chunkled
    requires BreakLayout(buf)
    requires buf == [] || !IsBreak(buf[|buf| - 1])
    requires !IsBreak(c)
    ensures BreakLayout(Put(p, buf, c))
  {
    var out := Put(p, buf, c);
    forall i | 0 <= i < |out|
      ensures (out[i] == CR <==> i > 0 && i % ChunkLen == 0)
      ensures (out[i] == LF <==> i > ChunkLen && i % ChunkLen == 1)
    {
      if i < |buf| {
        assert out[i] == buf[i];
      }
    }
  }

  /** The chunking rule of `_chunk`, seen on the whole output: breaks fall
      at fixed positions of the buffer, none before the first character and
      none after the last one. */
  lemma {:induction false} ChunkedLayout(p: Params, s: seq<byte>)
    requires p.chunkled
    requires NoBreaks(s)
    ensures BreakLayout(Emit(p, [], s))
    ensures |s| > 0 ==>
              && |Emit(p, [], s)| > 0
              && Emit(p, [], s)[0] == s[0]
              && Emit(p, [], s)[|Emit(p, [], s)| - 1] == s[|s| - 1]
    decreases |s|
  {
    if s != [] {
      var s' := s[..|s| - 1];
      ChunkedLayout(p, s');
      PutKeepsLayout(p, Emit(p, [], s'), s[|s| - 1]);
      if s' == [] {
        assert Emit(p, [], s) == [s[0]];
      }
    }
  }

  /** Removing the breaks from the output gives back the stream. */
  lemma {:induction false} StripEmit(p: Params, buf: seq<byte>, s: seq<byte>)
    requires NoBreaks(s)
    ensures StripBreaks(Emit(p, buf, s)) == StripBreaks(buf) + s
    decreases |s|
  {
    if s != [] {
      var s' := s[..|s| - 1];
      var c := s[|s| - 1];
      var e := Emit(p, buf, s');
      assert StripBreaks(e) == StripBreaks(buf) + s' by {
        assert NoBreaks(s') by {
          assert forall i :: 0 <= i < |s'| ==> s'[i] == s[i];
        }
        StripEmit(p, buf, s');
      }
      assert StripBreaks(Put(p, e, c)) == StripBreaks(e) + [c] by {
        StripPut(p, e, c);
      }
      assert Emit(p, buf, s) == Put(p, e, c);
      assert StripBreaks(buf) + s == (StripBreaks(buf) + s') + [c] by {
        assert s == s' + [c];
      }
    }
  }

  /** One write adds its character and at most a break. */
  lemma {:induction false} StripPut(p: Params, buf: seq<byte>, c: byte)
    requires !IsBreak(c)
    ensures StripBreaks(Put(p, buf, c)) == StripBreaks(buf) + [c]
  {
    assert StripBreaks(Chunk(p, buf)) == StripBreaks(buf) by {
      StripBreaksAppend(buf, [CR, LF]);
      StripBreaksOfBreak();
    }
    StripBreaksAppend(Chunk(p, buf), [c]);
    assert [c][..0] == [];
  }

  lemma {:induction false} StripBreaksOfBreak()
    ensures StripBreaks([CR, LF]) == []
  {
    assert [CR, LF][..1] == [CR];
    assert [CR][..0] == [];
    assert StripBreaks([CR]) == [];
  }

  /** Chunked and unchunked encodings carry the same characters. */
  lemma {:induction false} UnchunkedIsStripped(p: Params, data: seq<byte>)
    requires Valid(p)
    ensures Encoding(p.(chunkled := false), data) == StripBreaks(Encoding(p, data))
    ensures Encoding(p.(chunkled := false), data) == Stream(p, data)
  {
    var q := p.(chunkled := false);
    EncodingIsEmittedStream(p, data);
    EncodingIsEmittedStream(q, data);
    assert Stream(q, data) == Stream(p, data) by {
      StreamSameFlags(p, q, data);
    }
    EmitPlain(q, [], Stream(p, data));
    StreamNoBreaks(p, data);
    StripEmit(p, [], Stream(p, data));
  }

  /** Two records that differ at most in the chunking flag. */
  predicate SameCodec(p: Params, q: Params)
  {
    && q.group == p.group && q.bitslen == p.bitslen && q.egroup == p.egroup
    && q.mask == p.mask && q.entable == p.entable && q.detable == p.detable
    && q.padding == p.padding
  }

  /** The stream does not depend on the chunking flag. */
  lemma {:induction false} StreamSameFlags(p: Params, q: Params, data: seq<byte>)
    requires Encodable(p) && Encodable(q) && SameCodec(p, q)
    ensures Stream(q, data) == Stream(p, data)
  {
    FullStreamSameFlags(p, q, data);
    LeftStreamSameFlags(p, q, data);
  }

  lemma {:induction false} LeftStreamSameFlags(p: Params, q: Params, data: seq<byte>)
    requires Encodable(p) && Encodable(q) && SameCodec(p, q)
    ensures LeftStream(q, data) == LeftStream(p, data)
  {
    var block := LeftBlock(p, data);
    var left := |block|;
    assert LeftBlock(q, data) == block;
    if left > 0 {
      var vs := GroupValues(p, block);
      assert GroupValues(q, block) == vs by {
        LoopValuesSameShape(p, q, BigEndian(block) * 256, (|block| + 1) * 8);
      }
      var syms := Symbols(p, vs);
      assert Symbols(q, vs) == syms;
      if p.padding {
        var pads := Pads(PadCount(p, left));
        assert PadCount(q, left) == PadCount(p, left);
        assert LeftStream(p, data) == syms + pads;
        assert LeftStream(q, data) == syms + pads;
      } else {
        assert LeftStream(p, data) == syms + [];
        assert LeftStream(q, data) == syms + [];
      }
    }
  }

  lemma {:induction false} FullStreamSameFlags(p: Params, q: Params, data: seq<byte>)
    requires Encodable(p) && Encodable(q) && SameCodec(p, q)
    ensures FullStream(q, data) == FullStream(p, data)
    decreases |data|
  {
    if |data| >= p.group {
      FullStreamSameFlags(p, q, data[p.group..]);
      var block := data[..p.group];
      LoopValuesSameShape(p, q, BigEndian(block) * 256, (|block| + 1) * 8);
    }
  }

  lemma {:induction false} LoopValuesSameShape(p: Params, q: Params, t: nat, bits: int)
    requires SymbolWidth(p) && SymbolWidth(q)
    requires q.bitslen == p.bitslen && q.mask == p.mask
    ensures LoopValues(q, t, bits) == LoopValues(p, t, bits)
    decreases bits
  {
    if bits > 8 {
      LoopValuesSameShape(p, q, t, bits - p.bitslen);
    }
  }

  // ---------------------------------------------------------------------
  // Lengths

  /** Breaks `_chunk` puts among m characters: one after the first 76, then
      one after every further 74, because the index it tests counts the
      CRLF bytes already written. */
  function Breaks(m: nat): nat
  {
    if m <= ChunkLen then 0 else 1 + (m - ChunkLen - 1) / (ChunkLen - 2)
  }

  lemma {:induction false} BreaksStep(m: nat)
    ensures var l := m + 2 * Breaks(m);
      Breaks(m + 1) == Breaks(m) + (if l > 0 && l % ChunkLen == 0 then 1 else 0)
  {
    var l := m + 2 * Breaks(m);
    if m < 76 {
    } else if m == 76 {
      assert Breaks(77) == 1;
    } else {
      var q, r := (m - 77) / 74, (m - 77) % 74;
      assert l == 76 * q + 79 + r;
      if r == 73 {
        DivModUnique(m + 1 - 77, 74, q + 1, 0);
        DivModUnique(l, 76, q + 2, 0);
      } else {
        DivModUnique(m + 1 - 77, 74, q, r + 1);
        DivModUnique(l, 76, q + 1, r + 3);
      }
    }
  }

  lemma {:induction false} ChunkedLength(p: Params, s: seq<byte>)
    requires p.chunkled
    ensures |Emit(p, [], s)| == |s| + 2 * Breaks(|s|)
    decreases |s|
  {
    if s != [] {
      ChunkedLength(p, s[..|s| - 1]);
      BreaksStep(|s| - 1);
    }
  }

  lemma {:induction false} FullStreamLength(p: Params, data: seq<byte>)
    requires Encodable(p)
    ensures |FullStream(p, data)| == |data| / p.group * p.egroup
    decreases |data|
  {
    var n, g, e := |data|, p.group, p.egroup;
    if n >= g {
      FullGroupCount(p, data[..g]);
      FullStreamLength(p, data[g..]);
      DivSub(n, g);
      MulSucc((n - g) / g, e);
    } else {
      DivModUnique(n, g, 0, n);
    }
  }

  /** Every full block gives egroup symbols; a short block gives
      ceil(left*8/bitslen) symbols, topped up to egroup with pads when
      padding is on. */
  lemma {:induction false} StreamLength(p: Params, data: seq<byte>)
    requires Encodable(p)
    ensures var left := |data| % p.group;
      |Stream(p, data)| == |data| / p.group * p.egroup
        + (if left == 0 then 0
           else if p.padding then p.egroup
           else CeilDiv(8 * left, p.bitslen))
  {
    FullStreamLength(p, data);
    LeftStreamLength(p, data);
  }

  lemma {:induction false} LeftStreamLength(p: Params, data: seq<byte>)
    requires Encodable(p)
    ensures var left := |data| % p.group;
      |LeftStream(p, data)| ==
        (if left == 0 then 0
         else if p.padding then p.egroup
         else CeilDiv(8 * left, p.bitslen))
  {
    var block := LeftBlock(p, data);
    var left := |block|;
    if left > 0 {
      var vs := GroupValues(p, block);
      var syms := Symbols(p, vs);
      GroupValuesCount(p, block);
      assert |syms| == CeilDiv(8 * left, p.bitslen);
      if p.padding {
        var pads := Pads(PadCount(p, left));
        assert |pads| == PadCount(p, left);
        assert LeftStream(p, data) == syms + pads;
      } else {
        assert LeftStream(p, data) == syms + [];
      }
    }
  }

  lemma {:induction false} CeilDivGroups(p: Params, n: nat)
    requires Encodable(p)
    ensures CeilDiv(n, p.group) == n / p.group + (if n % p.group == 0 then 0 else 1)
  {
    var g, m := p.group, n / p.group;
    var q := m + (if n % g == 0 then 0 else 1);
    assert n == m * g + n % g;
    MulSucc(m, g);
    if m > 0 {
      MulSucc(m - 1, g);
    }
    CeilDivOf(n, g, q);
  }

  /** Without chunking the estimate is exact when padding is on and an
      upper bound when it is off. */
  lemma {:induction false} UnchunkedWithinEstimate(p: Params, data: seq<byte>)
    requires Encodable(p)
    requires !p.chunkled
    ensures |Encoding(p, data)| <= EncodingLength(p, |data|)
    ensures p.padding ==> |Encoding(p, data)| == EncodingLength(p, |data|)
  {
    var n := |data|;
    assert |Encoding(p, data)| == |Stream(p, data)| by {
      EncodingIsEmittedStream(p, data);
      EmitPlain(p, [], Stream(p, data));
    }
    if n > 0 {
      var Q, left := n / p.group, n % p.group;
      StreamLength(p, data);
      CeilDivGroups(p, n);
      assert EncodingLength(p, n) == CeilDiv(n, p.group) * p.egroup;
      if left > 0 {
        LeftFits(p, left);
        MulSucc(Q, p.egroup);
        assert EncodingLength(p, n) == Q * p.egroup + p.egroup;
      } else {
        assert EncodingLength(p, n) == Q * p.egroup;
      }
    }
  }

  /** With padding on every block, short or not, yields egroup characters. */
  lemma {:induction false} PaddedStreamLength(p: Params, data: seq<byte>)
    requires Encodable(p)
    requires p.padding
    ensures |Stream(p, data)| == CeilDiv(|data|, p.group) * p.egroup
  {
    StreamLength(p, data);
    CeilDivGroups(p, |data|);
    if |data| % p.group > 0 {
      MulSucc(|data| / p.group, p.egroup);
    }
  }

  /** With chunking on and padding on, the estimate matches as long as the
      stream has at most 150 characters; past that the lines `_chunk` makes
      after the first are two characters shorter than the estimate allows for. */
  lemma {:induction false} ChunkedWithinEstimateUpTo150(p: Params, data: seq<byte>)
    requires Encodable(p)
    requires p.chunkled && p.padding
    requires |Stream(p, data)| <= 150
    ensures |Encoding(p, data)| == EncodingLength(p, |data|)
  {
    var S := Stream(p, data);
    EncodingIsEmittedStream(p, data);
    ChunkedLength(p, S);
    assert |Encoding(p, data)| == |S| + 2 * Breaks(|S|);
    PaddedStreamLength(p, data);
    if |data| > 0 {
      ChunkedEstimate(p, |data|, |S|);
      BreaksUpTo150(|S|);
    } else {
      assert |S| == 0;
    }
  }

  /** The chunked estimate, spelled out for a stream of len characters. */
  lemma {:induction false} ChunkedEstimate(p: Params, n: nat, len: nat)
    requires Encodable(p) && p.chunkled && n > 0
    requires len == CeilDiv(n, p.group) * p.egroup
    ensures len >= 1 && EncodingLength(p, n) == len + (len - 1) / ChunkLen * 2
  {
    ValidFacts(p);
    var q := CeilDiv(n, p.group);
    assert q >= 1;
    MulMono(1, q, p.egroup);
  }

  lemma {:induction false} BreaksUpTo150(m: nat)
    requires 1 <= m <= 150
    ensures Breaks(m) == (m - 1) / ChunkLen
  {
    if m <= 76 {
      DivModUnique(m - 1, 76, 0, m - 1);
    } else {
      DivModUnique(m - 77, 74, 0, m - 77);
      DivModUnique(m - 1, 76, 1, m - 77);
    }
  }

  // ---------------------------------------------------------------------
  // What `_encoding_group` extracts

  /** Turn j of the loop reads the field `bitslen` wide that ends `shift`
      bits above the bottom of the window. */
  lemma {:induction false} LoopValuesAt(p: Params, t: nat, bits: int, j: nat, shift: nat)
    requires SymbolWidth(p)
    requires j < |LoopValues(p, t, bits)|
    requires shift + (j + 1) * p.bitslen == bits
    ensures LoopValues(p, t, bits)[j] == (t / Pow2(shift)) % Pow2(p.bitslen)
    decreases j
  {
    var b := p.bitslen;
    var vs := LoopValues(p, t, bits);
    assert bits > 8;
    var rest := LoopValues(p, t, bits - b);
    LoopValuesUnfold(p, t, bits);
    if j > 0 {
      MulSucc(j, b);
      assert shift + j * b == bits - b;
      assert vs[j] == rest[j - 1];
      LoopValuesAt(p, t, bits - b, j - 1, shift);
    } else {
      assert shift == bits - b;
    }
  }

  /** Full groups: symbol j is `(V >> (group*8 - (j+1)*bitslen)) & mask`
      for V the block read big-endian. */
  lemma {:induction false} FullGroupSymbols(p: Params, block: seq<byte>, j: nat, shift: nat)
    requires Encodable(p)
    requires |block| == p.group
    requires shift + (j + 1) * p.bitslen == p.group * 8
    ensures j < |GroupValues(p, block)| == p.egroup
    ensures GroupValues(p, block)[j] == (BigEndian(block) / Pow2(shift)) % Pow2(p.bitslen)
  {
    FullGroupCount(p, block);
    if j >= p.egroup {
      MulMono(p.egroup + 1, j + 1, p.bitslen);
      MulSucc(p.egroup, p.bitslen);
      assert false;
    }
    var V := BigEndian(block);
    LoopValuesAt(p, V * 256, (|block| + 1) * 8, j, shift + 8);
    Pow2Add(shift, 8);
    assert Pow2(8) == 256;
    DivCancel(V, Pow2(shift), 256);
  }

  /** One turn of the loop reads the top bitslen bits of the window. */
  lemma {:induction false} LoopValuesHead(p: Params, X: seq<bool>, o: nat, bits: int)
    requires SymbolWidth(p)
    requires 8 < bits && o + bits == |X|
    ensures var vs := LoopValues(p, FromBits(X), bits);
      && vs != []
      && vs[0] == FromBits(X[o .. o + p.bitslen])
      && vs[1..] == LoopValues(p, FromBits(X), bits - p.bitslen)
  {
    var b, x := p.bitslen, FromBits(X);
    var vs := LoopValues(p, x, bits);
    assert vs != [] && vs[1..] == LoopValues(p, x, bits - b) by {
      LoopValuesUnfold(p, x, bits);
    }
    assert vs[0] == FromBits(X[o .. o + b]) by {
      LoopValuesUnfold(p, x, bits);
      FieldIsSlice(X, bits - b, b);
      assert |X| - (bits - b) - b == o;
    }
  }

  /** One turn of the loop, on any window value. */
  lemma {:induction false} LoopValuesUnfold(p: Params, t: nat, bits: int)
    requires SymbolWidth(p)
    requires 8 < bits
    ensures var vs := LoopValues(p, t, bits);
      && vs != []
      && vs[0] == (t / Pow2(bits - p.bitslen)) % (p.mask + 1)
      && vs[1..] == LoopValues(p, t, bits - p.bitslen)
  {
    var f := (t / Pow2(bits - p.bitslen)) % (p.mask + 1);
    var vs, rest := LoopValues(p, t, bits), LoopValues(p, t, bits - p.bitslen);
    assert vs == [f] + rest;
    assert vs[1..] == rest;
  }

  /** vs are the bitslen-wide slices of X read from offset o on, one a
      turn while more than 8 bits remain: the loop of `_encoding_group`
      stated on the window's bit string. */
  predicate TopSlices(X: seq<bool>, o: nat, b: nat, bits: int, vs: seq<nat>)
    requires 1 <= b <= 8 && o + bits == |X|
    decreases bits
  {
    if bits > 8 then
      && vs != []
      && vs[0] == FromBits(X[o .. o + b])
      && TopSlices(X, o + b, b, bits - b, vs[1..])
    else vs == []
  }

  lemma {:induction false} LoopValuesTop(p: Params, X: seq<bool>, o: nat, bits: int)
    requires SymbolWidth(p)
    requires o + bits == |X|
    ensures TopSlices(X, o, p.bitslen, bits, LoopValues(p, FromBits(X), bits))
    decreases bits
  {
    var b := p.bitslen;
    var vs := LoopValues(p, FromBits(X), bits);
    if bits > 8 {
      var rest := LoopValues(p, FromBits(X), bits - b);
      assert vs != [] && vs[0] == FromBits(X[o .. o + b]) && vs[1..] == rest by {
        LoopValuesHead(p, X, o, bits);
      }
      LoopValuesTop(p, X, o + b, bits - b);
    }
  }

  /** Slices read from the top, laid side by side, are a prefix of what
      is left of the bit string. */
  lemma {:induction false} TopSlicesBits(X: seq<bool>, o: nat, b: nat, bits: int, vs: seq<nat>)
    requires 1 <= b <= 8 && 0 <= bits && o + bits == |X|
    requires TopSlices(X, o, b, bits, vs)
    ensures |SymBits(vs, b)| <= bits
    ensures SymBits(vs, b) == X[o .. o + |SymBits(vs, b)|]
    decreases bits
  {
    if bits > 8 {
      TopSlicesBits(X, o + b, b, bits - b, vs[1..]);
      var T := SymBits(vs[1..], b);
      assert ToBits(vs[0], b) == X[o .. o + b] by {
        ToFromBits(X[o .. o + b]);
      }
      assert SymBits(vs, b) == ToBits(vs[0], b) + T;
      SliceSplit(X, o, o + b, o + b + |T|);
    }
  }

  /** The loop reads its window's bit string from the top, bitslen bits a
      turn, and stops with fewer than bitslen + 8 bits left. */
  lemma {:induction false} LoopValuesBits(p: Params, X: seq<bool>)
    requires SymbolWidth(p)
    ensures |SymBits(LoopValues(p, FromBits(X), |X|), p.bitslen)| <= |X|
    ensures SymBits(LoopValues(p, FromBits(X), |X|), p.bitslen)
         == X[.. |SymBits(LoopValues(p, FromBits(X), |X|), p.bitslen)|]
  {
    LoopValuesTop(p, X, 0, |X|);
    TopSlicesBits(X, 0, p.bitslen, |X|, LoopValues(p, FromBits(X), |X|));
  }

  /** The symbols of a block, laid side by side, are the block's bits
      followed by zero fill up to the next symbol boundary; for a full
      block there is no fill. */
  lemma {:induction false} GroupBits(p: Params, block: seq<byte>)
    requires Encodable(p)
    requires 1 <= |block| <= p.group
    ensures var vs := GroupValues(p, block);
      && 8 * |block| <= p.bitslen * |vs| < 8 * |block| + p.bitslen
      && SymBits(vs, p.bitslen) == BytesBits(block) + Zeros(p.bitslen * |vs| - 8 * |block|)
  {
    assert GroupValues(p, block) == LoopValues(p, BigEndian(block) * 256, (|block| + 1) * 8);
    WindowBits(p, block);
  }

  /** `GroupBits` for the loop itself, on a window of the block above a
      zero byte. */
  lemma {:induction false} WindowBits(p: Params, block: seq<byte>)
    requires SymbolWidth(p)
    requires 1 <= |block|
    ensures var vs := LoopValues(p, BigEndian(block) * 256, (|block| + 1) * 8);
      && 8 * |block| <= p.bitslen * |vs| < 8 * |block| + p.bitslen
      && SymBits(vs, p.bitslen) == BytesBits(block) + Zeros(p.bitslen * |vs| - 8 * |block|)
  {
    var X := BytesBits(block) + Zeros(8);
    BlockAboveZeroByte(block);
    var vs := LoopValues(p, FromBits(X), |X|);
    LoopValuesCount(p, FromBits(X), |X|);
    LoopValuesBits(p, X);
    ZerosPrefix(BytesBits(block), 8, |SymBits(vs, p.bitslen)|);
  }
}
