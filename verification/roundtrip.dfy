/** Encoding followed by decoding. The encoder's characters are read back
    with `Values`; their bits are the data's bits followed by fewer than
    eight zero bits; so the corrected decoder returns the data, and the
    decoder as written returns it except for a short last block of zero
    bytes, which it drops. */
module RoundTrip {
  import opened Arith
  import opened Bits
  import opened BaseN
  import opened Decoder
  import opened Encoder

  // ---------------------------------------------------------------------
  // Reading text back

  /** Both readings succeed, and their values follow each other. */
  function Join(x: Option<seq<nat>>, y: Option<seq<nat>>): Option<seq<nat>>
  {
    if x.Some? && y.Some? then Some(x.value + y.value) else None
  }

  /** Reading is compositional: the values of a + b are those of a, then
      those of b, and a + b is rejected when either part is. */
  lemma {:induction false} ValuesAppend(p: Params, a: seq<byte>, b: seq<byte>)
    requires Valid(p)
    ensures Values(p, a + b) == Join(Values(p, a), Values(p, b))
    decreases |b|
  {
    if b == [] {
      assert a + b == a;
      if Values(p, a).Some? {
        assert Values(p, a).value + [] == Values(p, a).value;
      }
    } else {
      var b' := b[..|b| - 1];
      var c := b[|b| - 1];
      assert (a + b)[..|a + b| - 1] == a + b';
      assert (a + b)[|a + b| - 1] == c;
      ValuesAppend(p, a, b');
      if Values(p, a).Some? && Values(p, b').Some? && !IsSkip(c) && c in p.entable {
        var u, w := Values(p, a).value, Values(p, b').value;
        assert u + w + [p.detable[c]] == u + (w + [p.detable[c]]);
      }
    }
  }

  /** Text made only of CR, LF and '=' carries no values. */
  lemma {:induction false} ValuesSkips(p: Params, s: seq<byte>)
    requires Valid(p)
    requires forall i :: 0 <= i < |s| ==> IsSkip(s[i])
    ensures Values(p, s) == Some([])
  {
    if s != [] {
      var s' := s[..|s| - 1];
      assert forall i :: 0 <= i < |s'| ==> s'[i] == s[i];
      ValuesSkips(p, s');
    }
  }

  /** The characters `entable` gives some values read back as those
      values. */
  lemma {:induction false} ValuesSymbols(p: Params, vs: seq<nat>)
    requires Valid(p)
    requires forall i :: 0 <= i < |vs| ==> vs[i] < Pow2(p.bitslen)
    ensures Values(p, Symbols(p, vs)) == Some(vs)
  {
    if vs != [] {
      var vs', v := vs[..|vs| - 1], vs[|vs| - 1];
      var s := Symbols(p, vs);
      assert s[..|s| - 1] == Symbols(p, vs');
      ValuesSymbols(p, vs');
      assert s[|s| - 1] in p.entable && p.detable[s[|s| - 1]] == v;
      assert vs' + [v] == vs;
    }
  }

  /** Removing CR and LF does not change the reading. */
  lemma {:induction false} ValuesStrip(p: Params, s: seq<byte>)
    requires Valid(p)
    ensures Values(p, StripBreaks(s)) == Values(p, s)
  {
    if s != [] {
      var s' := s[..|s| - 1];
      var c := s[|s| - 1];
      ValuesStrip(p, s');
      var X := StripBreaks(s');
      if IsBreak(c) {
        assert StripBreaks(s) == X + [];
        assert X + [] == X;
      } else {
        assert StripBreaks(s) == X + [c];
        assert (X + [c])[..|X + [c]| - 1] == X;
        assert (X + [c])[|X + [c]| - 1] == c;
      }
    }
  }

  // ---------------------------------------------------------------------
  // The values the encoder writes

  /** The symbol values of the full blocks, block after block. */
  function FullValues(p: Params, data: seq<byte>): (vs: seq<nat>)
    requires Encodable(p)
    ensures forall i :: 0 <= i < |vs| ==> vs[i] < Pow2(p.bitslen)
    decreases |data|
  {
    if |data| < p.group then []
    else
      var u, w := GroupValues(p, data[..p.group]), FullValues(p, data[p.group..]);
      assert forall i :: |u| <= i < |u + w| ==> (u + w)[i] == w[i - |u|];
      u + w
  }

  /** The symbol values of the short last block, if any. */
  function LeftValues(p: Params, data: seq<byte>): (vs: seq<nat>)
    requires Encodable(p)
    ensures forall i :: 0 <= i < |vs| ==> vs[i] < Pow2(p.bitslen)
  {
    var block := LeftBlock(p, data);
    if block == [] then [] else GroupValues(p, block)
  }

  /** Every symbol value the encoder writes, in order. */
  function EncValues(p: Params, data: seq<byte>): (vs: seq<nat>)
    requires Encodable(p)
    ensures forall i :: 0 <= i < |vs| ==> vs[i] < Pow2(p.bitslen)
  {
    var u, w := FullValues(p, data), LeftValues(p, data);
    assert forall i :: |u| <= i < |u + w| ==> (u + w)[i] == w[i - |u|];
    u + w
  }

  lemma {:induction false} FullStreamValues(p: Params, data: seq<byte>)
    requires Valid(p)
    ensures Values(p, FullStream(p, data)) == Some(FullValues(p, data))
    decreases |data|
  {
    if |data| >= p.group {
      var vs := GroupValues(p, data[..p.group]);
      ValuesAppend(p, Symbols(p, vs), FullStream(p, data[p.group..]));
      ValuesSymbols(p, vs);
      FullStreamValues(p, data[p.group..]);
    }
  }

  lemma {:induction false} LeftStreamValues(p: Params, data: seq<byte>)
    requires Valid(p)
    ensures Values(p, LeftStream(p, data)) == Some(LeftValues(p, data))
  {
    var block := LeftBlock(p, data);
    if block != [] {
      var vs := GroupValues(p, block);
      var pads := if p.padding then Pads(PadCount(p, |block|)) else [];
      assert LeftStream(p, data) == Symbols(p, vs) + pads;
      ValuesAppend(p, Symbols(p, vs), pads);
      ValuesSymbols(p, vs);
      ValuesSkips(p, pads);
      assert vs + [] == vs;
    }
  }

  /** The encoding reads back as the encoder's symbol values, whatever the
      options. */
  lemma {:induction false} EncodingValues(p: Params, data: seq<byte>)
    requires Valid(p)
    ensures Values(p, Encoding(p, data)) == Some(EncValues(p, data))
  {
    UnchunkedIsStripped(p, data);
    ValuesStrip(p, Encoding(p, data));
    StreamValues(p, data);
  }

  /** The unbroken stream reads back as the encoder's symbol values. */
  lemma {:induction false} StreamValues(p: Params, data: seq<byte>)
    requires Valid(p)
    ensures Values(p, Stream(p, data)) == Some(EncValues(p, data))
  {
    ValuesAppend(p, FullStream(p, data), LeftStream(p, data));
    FullStreamValues(p, data);
    LeftStreamValues(p, data);
  }

  // ---------------------------------------------------------------------
  // The bits of those values

  /** The full blocks' symbols carry the bits of all but the short last
      block. */
  lemma {:induction false} FullValuesBits(p: Params, data: seq<byte>)
    requires Encodable(p)
    ensures SymBits(FullValues(p, data), p.bitslen) + BytesBits(LeftBlock(p, data)) == BytesBits(data)
    decreases |data|
  {
    var g, b := p.group, p.bitslen;
    if |data| < g {
      LeftBlockShort(p, data);
    } else {
      var block, rest := data[..g], data[g..];
      var A, B, C := BytesBits(block), SymBits(FullValues(p, rest), b), BytesBits(LeftBlock(p, rest));
      assert SymBits(FullValues(p, data), b) == A + B by {
        var vs := GroupValues(p, block);
        SymBitsAppend(vs, FullValues(p, rest), b);
        FullBlockBits(p, block);
      }
      assert BytesBits(LeftBlock(p, data)) == C by {
        LeftBlockRest(p, data);
      }
      assert BytesBits(data) == A + (B + C) by {
        FullValuesBits(p, rest);
        Halves(data, g);
        BytesBitsAppend(block, rest);
      }
      Assoc(A, B, C);
    }
  }

  /** Data shorter than a block is all short block. */
  lemma {:induction false} LeftBlockShort(p: Params, data: seq<byte>)
    requires Encodable(p)
    requires |data| < p.group
    ensures LeftBlock(p, data) == data
  {
    DivModUnique(|data|, p.group, 0, |data|);
  }

  /** A full block in front does not change the short block at the end. */
  lemma {:induction false} LeftBlockRest(p: Params, data: seq<byte>)
    requires Encodable(p)
    requires |data| >= p.group
    ensures LeftBlock(p, data) == LeftBlock(p, data[p.group..])
  {
    var rest := data[p.group..];
    DivSub(|data|, p.group);
    var l := |LeftBlock(p, data)|;
    assert |LeftBlock(p, rest)| == l;
    assert data[|data| - l..] == rest[|rest| - l..];
  }

  /** A full block's symbols carry exactly its bits. */
  lemma {:induction false} FullBlockBits(p: Params, block: seq<byte>)
    requires Encodable(p)
    requires |block| == p.group
    ensures SymBits(GroupValues(p, block), p.bitslen) == BytesBits(block)
  {
    GroupBits(p, block);
    FullGroupCount(p, block);
    ValidFacts(p);
    assert Zeros(0) == [];
  }

  /** The full blocks give whole windows of egroup symbols. */
  lemma {:induction false} FullValuesCount(p: Params, data: seq<byte>)
    requires Encodable(p)
    ensures |FullValues(p, data)| % p.egroup == 0
    decreases |data|
  {
    ValidFacts(p);
    if |data| >= p.group {
      var n := |FullValues(p, data[p.group..])|;
      FullValuesCount(p, data[p.group..]);
      assert |FullValues(p, data)| == n + p.egroup by {
        FullGroupCount(p, data[..p.group]);
      }
      ModAddDivisor(n, p.egroup);
    } else {
      DivModUnique(0, p.egroup, 0, 0);
    }
  }

  /** The symbols of a short block: its bits, then fewer than bitslen zero
      bits. */
  lemma {:induction false} LeftValuesBits(p: Params, data: seq<byte>)
    requires Encodable(p)
    ensures var f := p.bitslen * |LeftValues(p, data)| - 8 * |LeftBlock(p, data)|;
      && 0 <= f < 8
      && SymBits(LeftValues(p, data), p.bitslen) == BytesBits(LeftBlock(p, data)) + Zeros(f)
    ensures LeftBlock(p, data) == [] <==> LeftValues(p, data) == []
    ensures |LeftValues(p, data)| < p.egroup
  {
    var block := LeftBlock(p, data);
    if block == [] {
      assert Zeros(0) == [];
      ValidFacts(p);
    } else {
      GroupBits(p, block);
      LeftFits(p, |block|);
    }
  }

  /** All the symbols the encoder writes carry the data's bits and then
      fewer than eight zero bits. */
  lemma {:induction false} EncValuesBits(p: Params, data: seq<byte>)
    requires Encodable(p)
    ensures var f := p.bitslen * |EncValues(p, data)| - 8 * |data|;
      && 0 <= f < 8
      && SymBits(EncValues(p, data), p.bitslen) == BytesBits(data) + Zeros(f)
  {
    var b := p.bitslen;
    var u, w := FullValues(p, data), LeftValues(p, data);
    var block := LeftBlock(p, data);
    FullValuesBits(p, data);
    LeftValuesBits(p, data);
    SymBitsAppend(u, w, b);
    var f := b * |w| - 8 * |block|;
    assert SymBits(u, b) + SymBits(w, b) == BytesBits(data) + Zeros(f) by {
      assert SymBits(w, b) == BytesBits(block) + Zeros(f);
      assert SymBits(u, b) + BytesBits(block) == BytesBits(data);
    }
    assert |SymBits(u + w, b)| == b * |u + w|;
  }

  // ---------------------------------------------------------------------
  // Round trips

  /** With the corrected tail handling every encoding decodes to its data,
      for every combination of the two options. */
  lemma {:induction false} RoundTripFlushed(p: Params, data: seq<byte>)
    requires Valid(p)
    ensures DecodingFlushed(p, Encoding(p, data)) == Some(data)
  {
    EncodingValues(p, data);
    DecodingFlushedIsSymbolBits(p, Encoding(p, data));
    EncValuesBytes(p, data);
  }

  /** `baseN_decoding` as written gives the data back except when the data
      ends in a short block of zero bytes: that block decodes to all-zero
      symbols, the window stays 0, and `k > 0 && t` skips it. */
  lemma {:induction false} RoundTripAsWritten(p: Params, data: seq<byte>)
    requires Valid(p)
    ensures var block := LeftBlock(p, data);
      Decoding(p, Encoding(p, data)) ==
        if block != [] && (forall i :: 0 <= i < |block| ==> block[i] == 0)
        then Some(data[..|data| - |block|])
        else Some(data)
  {
    var block := LeftBlock(p, data);
    var w := LeftValues(p, data);
    EncodingDecodes(p, data);
    LeftValuesBits(p, data);
    LeftZero(p, data);
    if w != [] && AllZero(w) {
      ZeroBlockPrefix(p, data);
    }
  }

  /** The decoder as written does invert the encoder on whole blocks, and
      on a short last block that holds a nonzero byte. */
  lemma {:induction false} RoundTripKeptTail(p: Params, data: seq<byte>)
    requires Valid(p)
    requires |data| % p.group == 0
      || exists i :: |data| - |data| % p.group <= i < |data| && data[i] != 0
    ensures Decoding(p, Encoding(p, data)) == Some(data)
  {
    var block := LeftBlock(p, data);
    var kept := !(block != [] && forall j :: 0 <= j < |block| ==> block[j] == 0);
    assert kept by {
      if block != [] {
        var i :| |data| - |block| <= i < |data| && data[i] != 0;
        assert block[i - (|data| - |block|)] != 0;
      }
    }
    RoundTripAsWritten(p, data);
  }

  /** What the decoder as written makes of an encoding: the data, unless
      the short block's symbols are all zero, when only the full blocks'
      bytes remain. */
  lemma {:induction false} EncodingDecodes(p: Params, data: seq<byte>)
    requires Valid(p)
    ensures var u, w := FullValues(p, data), LeftValues(p, data);
      Decoding(p, Encoding(p, data)) ==
        Some(if w != [] && AllZero(w) then BitsBytes(SymBits(u, p.bitslen)) else data)
  {
    var u, w := FullValues(p, data), LeftValues(p, data);
    EncodingValues(p, data);
    FullValuesCount(p, data);
    LeftValuesBits(p, data);
    DecodingOfValues(p, Encoding(p, data), u, w);
    EncValuesBytes(p, data);
  }

  /** The decoder as written on a text whose symbols are whole blocks u
      followed by fewer than egroup symbols w: all the bits, read eight at
      a time, unless w is non-empty and all zero, when w is dropped. */
  lemma {:induction false} DecodingOfValues(p: Params, s: seq<byte>, u: seq<nat>, w: seq<nat>)
    requires Valid(p)
    requires Values(p, s) == Some(u + w)
    requires |u| % p.egroup == 0 && |w| < p.egroup
    ensures Decoding(p, s) == Some(
      if w != [] && AllZero(w) then BitsBytes(SymBits(u, p.bitslen))
      else BitsBytes(SymBits(u + w, p.bitslen)))
  {
    var vs := u + w;
    var m := WholeGroups(p, |vs|);
    assert m == |u| by {
      ValidFacts(p);
      ModOfSum(|u|, p.egroup, |w|);
    }
    assert vs[..m] == u && vs[m..] == w;
    assert m < |vs| <==> w != [];
    DecodingIsSymbolBits(p, s);
  }

  /** The encoder's symbols, read eight bits at a time, are the data. */
  lemma {:induction false} EncValuesBytes(p: Params, data: seq<byte>)
    requires Encodable(p)
    ensures BitsBytes(SymBits(EncValues(p, data), p.bitslen)) == data
  {
    EncValuesBits(p, data);
    BitsBytesOfBytes(data, p.bitslen * |EncValues(p, data)| - 8 * |data|);
  }

  /** The full blocks' symbols give back the bytes before the short block. */
  lemma {:induction false} ZeroBlockPrefix(p: Params, data: seq<byte>)
    requires Encodable(p)
    ensures var block := LeftBlock(p, data);
      BitsBytes(SymBits(FullValues(p, data), p.bitslen)) == data[..|data| - |block|]
  {
    var block := LeftBlock(p, data);
    var n := |data| - |block|;
    FullValuesBits(p, data);
    assert data == data[..n] + block;
    BytesBitsAppend(data[..n], block);
    CancelRight(SymBits(FullValues(p, data), p.bitslen), BytesBits(data[..n]), BytesBits(block));
    BitsBytesOfBytes(data[..n], 0);
    assert BytesBits(data[..n]) + Zeros(0) == BytesBits(data[..n]);
  }

  /** The short block's symbols are all zero exactly when its bytes are. */
  lemma {:induction false} LeftZero(p: Params, data: seq<byte>)
    requires Encodable(p)
    ensures var block := LeftBlock(p, data);
      AllZero(LeftValues(p, data)) <==> forall i :: 0 <= i < |block| ==> block[i] == 0
  {
    var block := LeftBlock(p, data);
    var w := LeftValues(p, data);
    LeftValuesBits(p, data);
    var f := p.bitslen * |w| - 8 * |block|;
    SymBitsZero(w, p.bitslen);
    assert FromBits(SymBits(w, p.bitslen)) == BigEndian(block) * Pow2(f) by {
      ShiftedByZeros(BytesBits(block), f);
      BigEndianBits(block);
    }
    SumZero(BigEndian(block), Pow2(f), 0);
    BigEndianZero(block);
  }
}
