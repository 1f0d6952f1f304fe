/** The base64 test vectors of section 10 of RFC 4648 that fit in one
    block, worked through the model, and the zero byte that the decoder as
    written loses. */
module Vectors {
  import opened Arith
  import opened Bits
  import opened BaseN
  import opened Decoder
  import opened Encoder
  import opened RoundTrip
  import opened Base64

  lemma {:induction false} Pow2Table()
    ensures Pow2(4) == 16 && Pow2(6) == 64 && Pow2(8) == 256 && Pow2(10) == 1024
    ensures Pow2(12) == 4096 && Pow2(14) == 16384 && Pow2(18) == 262144
    ensures Pow2(20) == 1048576 && Pow2(26) == 67108864
  {
    Pow2Add(4, 2);
    Pow2Add(4, 4);
    Pow2Add(8, 2);
    Pow2Add(8, 4);
    Pow2Add(8, 6);
    Pow2Add(8, 10);
    Pow2Add(10, 10);
    Pow2Add(20, 6);
    assert Pow2(2) == 4;
  }

  /** One turn of the symbol loop of `_encoding_group`, with the symbol
      it reads already worked out. */
  lemma {:induction false} LoopStep(p: Params, t: nat, bits: int, d: nat, m: nat, v: nat)
    requires SymbolWidth(p)
    requires 8 < bits && Pow2(bits - p.bitslen) == d && p.mask + 1 == m
    requires (t / d) % m == v
    ensures LoopValues(p, t, bits) == [v] + LoopValues(p, t, bits - p.bitslen)
  {
  }

  /** The symbol loop of 6-bit symbols on the windows of `f`, `fo`, `foo`
      and a zero byte. */
  lemma {:induction false} LoopOfF(p: Params)
    requires SymbolWidth(p) && p.bitslen == 6
    ensures LoopValues(p, 26112, 16) == [25, 32]
  {
    Pow2Table();
    LoopStep(p, 26112, 16, 1024, 64, 25);
    LoopStep(p, 26112, 10, 16, 64, 32);
  }

  lemma {:induction false} LoopOfFo(p: Params)
    requires SymbolWidth(p) && p.bitslen == 6
    ensures LoopValues(p, 6713088, 24) == [25, 38, 60]
  {
    Pow2Table();
    LoopStep(p, 6713088, 24, 262144, 64, 25);
    LoopStep(p, 6713088, 18, 4096, 64, 38);
    LoopStep(p, 6713088, 12, 64, 64, 60);
  }

  lemma {:induction false} LoopOfFoo(p: Params)
    requires SymbolWidth(p) && p.bitslen == 6
    ensures LoopValues(p, 1718578944, 32) == [25, 38, 61, 47]
  {
    Pow2Table();
    LoopStep(p, 1718578944, 32, 67108864, 64, 25);
    LoopStep(p, 1718578944, 26, 1048576, 64, 38);
    LoopStep(p, 1718578944, 20, 16384, 64, 61);
    LoopStep(p, 1718578944, 14, 256, 64, 47);
  }

  lemma {:induction false} LoopOfZero(p: Params)
    requires SymbolWidth(p) && p.bitslen == 6
    ensures LoopValues(p, 0, 16) == [0, 0]
  {
    Pow2Table();
    LoopStep(p, 0, 16, 1024, 64, 0);
    LoopStep(p, 0, 10, 16, 64, 0);
  }

  lemma {:induction false} BigEndianOfThree(a: byte, b: byte, c: byte)
    ensures BigEndian([a]) == a
    ensures BigEndian([a, b]) == a * 256 + b
    ensures BigEndian([a, b, c]) == (a * 256 + b) * 256 + c
  {
    assert [a, b, c][..2] == [a, b];
    assert [a, b][..1] == [a];
    assert [a][..0] == [];
  }

  /** A text shorter than one block: its symbols and its pads, with no
      line break, since one block never reaches 76 characters. */
  lemma {:induction false} ShortText(p: Params, data: seq<byte>)
    requires Encodable(p) && p.padding
    requires 0 < |data| < p.group
    ensures Encoding(p, data) == Symbols(p, GroupValues(p, data)) + Pads(PadCount(p, |data|))
  {
    LeftBlockShort(p, data);
    assert FullStream(p, data) == [];
    assert Stream(p, data) == Symbols(p, GroupValues(p, data)) + Pads(PadCount(p, |data|));
    EncodingIsEmittedStream(p, data);
    assert |Stream(p, data)| <= ChunkLen by {
      GroupValuesCount(p, data);
      ValidFacts(p);
    }
    EmitShort(p, Stream(p, data));
  }

  /** A text of exactly one block: its egroup symbols. */
  lemma {:induction false} OneBlockText(p: Params, data: seq<byte>)
    requires Encodable(p)
    requires |data| == p.group
    ensures Encoding(p, data) == Symbols(p, GroupValues(p, data))
  {
    assert data[..p.group] == data;
    assert FullStream(p, data[p.group..]) == [];
    assert LeftBlock(p, data) == [] by {
      ModDrop(|data|, p.group);
      DivModUnique(|data|, p.group, 1, 0);
    }
    var s := Symbols(p, GroupValues(p, data));
    assert Stream(p, data) == s;
    EncodingIsEmittedStream(p, data);
    assert |s| <= ChunkLen by {
      FullGroupCount(p, data);
      ValidFacts(p);
    }
    EmitShort(p, s);
  }

  /** The inputs and the texts of the vectors, as bytes. */
  const F: seq<byte> := [102]
  const Fo: seq<byte> := [102, 111]
  const Foo: seq<byte> := [102, 111, 111]
  const Zero: seq<byte> := [0]
  /** `Zg==`, `Zm8=`, `Zm9v` and `AA==`. */
  const TextF: seq<byte> := [90, 103, 61, 61]
  const TextFo: seq<byte> := [90, 109, 56, 61]
  const TextFoo: seq<byte> := [90, 109, 57, 118]
  const TextZero: seq<byte> := [65, 65, 61, 61]

  /** A short last block with a nonzero byte survives the decoder as
      written. */
  lemma {:induction false} ShortDecodes(p: Params, data: seq<byte>)
    requires Valid(p)
    requires 0 < |data| < p.group && data[0] != 0
    ensures Decoding(p, Encoding(p, data)) == Some(data)
  {
    RoundTripAsWritten(p, data);
    LeftBlockShort(p, data);
  }

  /** `f` is `Zg==`. */
  lemma {:induction false} VectorFEncode(p: Params)
    requires IsBase64(p) && p.padding
    ensures Encoding(p, F) == TextF
  {
    ShortText(p, F);
    assert GroupValues(p, F) == [25, 32] by {
      BigEndianOfThree(102, 0, 0);
      LoopOfF(p);
    }
    assert Symbols(p, [25, 32]) == [90, 103] by {
      assert p.entable[25] == EncChar(25) && p.entable[32] == EncChar(32);
    }
    assert Pads(PadCount(p, 1)) == [61, 61] by {
      CeilDivOf(8, 6, 2);
    }
  }

  /** `Zg==` decodes back to `f`, whatever the flags. */
  lemma {:induction false} VectorFDecode(p: Params)
    requires IsBase64(p)
    ensures Decoding(p, TextF) == Some(F)
  {
    var q := p.(padding := true);
    assert IsBase64(q);
    VectorFEncode(q);
    ShortDecodes(q, F);
    DecodingIgnoresFlags(q, p, TextF);
  }

  /** `fo` is `Zm8=`. */
  lemma {:induction false} VectorFoEncode(p: Params)
    requires IsBase64(p) && p.padding
    ensures Encoding(p, Fo) == TextFo
  {
    ShortText(p, Fo);
    assert GroupValues(p, Fo) == [25, 38, 60] by {
      BigEndianOfThree(102, 111, 0);
      LoopOfFo(p);
    }
    assert Symbols(p, [25, 38, 60]) == [90, 109, 56] by {
      assert p.entable[25] == EncChar(25) && p.entable[38] == EncChar(38);
      assert p.entable[60] == EncChar(60);
    }
    assert Pads(PadCount(p, 2)) == [61] by {
      CeilDivOf(16, 6, 3);
    }
  }

  /** `Zm8=` decodes back to `fo`, whatever the flags. */
  lemma {:induction false} VectorFoDecode(p: Params)
    requires IsBase64(p)
    ensures Decoding(p, TextFo) == Some(Fo)
  {
    var q := p.(padding := true);
    assert IsBase64(q);
    VectorFoEncode(q);
    ShortDecodes(q, Fo);
    DecodingIgnoresFlags(q, p, TextFo);
  }

  /** `foo` is `Zm9v`. */
  lemma {:induction false} VectorFooEncode(p: Params)
    requires IsBase64(p)
    ensures Encoding(p, Foo) == TextFoo
  {
    OneBlockText(p, Foo);
    assert GroupValues(p, Foo) == [25, 38, 61, 47] by {
      BigEndianOfThree(102, 111, 111);
      LoopOfFoo(p);
    }
    assert Symbols(p, [25, 38, 61, 47]) == TextFoo by {
      assert p.entable[25] == EncChar(25) && p.entable[38] == EncChar(38);
      assert p.entable[61] == EncChar(61) && p.entable[47] == EncChar(47);
    }
  }

  /** `Zm9v` decodes back to `foo`. */
  lemma {:induction false} VectorFooDecode(p: Params)
    requires IsBase64(p)
    ensures Decoding(p, TextFoo) == Some(Foo)
  {
    VectorFooEncode(p);
    RoundTripAsWritten(p, Foo);
    assert LeftBlock(p, Foo) == [] by {
      DivModUnique(3, 3, 1, 0);
    }
  }

  /** `[0x00]` is `AA==`. */
  lemma {:induction false} VectorZeroEncode(p: Params)
    requires IsBase64(p) && p.padding
    ensures Encoding(p, Zero) == TextZero
  {
    ShortText(p, Zero);
    assert GroupValues(p, Zero) == [0, 0] by {
      BigEndianOfThree(0, 0, 0);
      LoopOfZero(p);
    }
    assert Symbols(p, [0, 0]) == [65, 65] by {
      assert p.entable[0] == EncChar(0);
    }
    assert Pads(PadCount(p, 1)) == [61, 61] by {
      CeilDivOf(8, 6, 2);
    }
  }

  /** The decoder as written reads `AA==` back as nothing, the corrected
      one as `[0x00]`, whatever the flags. */
  lemma {:induction false} VectorZeroDecode(p: Params)
    requires IsBase64(p)
    ensures Decoding(p, TextZero) == Some([])
    ensures DecodingFlushed(p, TextZero) == Some(Zero)
  {
    var q := p.(padding := true);
    assert IsBase64(q);
    VectorZeroEncode(q);
    assert Decoding(q, Encoding(q, Zero)) == Some([]) by {
      RoundTripAsWritten(q, Zero);
      LeftBlockShort(q, Zero);
      assert Zero[..0] == [];
    }
    RoundTripFlushed(q, Zero);
    DecodingIgnoresFlags(q, p, TextZero);
  }
}
