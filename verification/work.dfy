/** `baseN_work`: the entry point that reserves the output buffer from the
    length estimate, reports an empty input, and runs the encoder or the
    decoder. `Work` runs the codec as written (`Encoder.Encoding` and
    `Decoder.Decoding`); `WorkCorrected` runs the corrected codec of
    `Findings` (the line breaking of `Findings.Lines` and the decoder
    `Decoder.DecodingFlushed`). */
module Work {
  import opened Arith
  import opened Bits
  import opened BaseN
  import opened Decoder
  import opened Encoder
  import opened RoundTrip
  import opened Base64
  import opened Findings

  /** Which way `baseN_work` runs: the `method` field of the codec. */
  datatype Direction = Encode | Decode

  /** The code `baseN_work` returns and the bytes it leaves in the result. */
  datatype Outcome = Outcome(code: Code, result: seq<byte>)

  /** An empty estimate means an empty input and ends the call; otherwise
      the codec runs, and a decoder failure is an invalid input. */
  function Work(p: Params, dir: Direction, data: seq<byte>): (o: Outcome)
    requires Valid(p)
    ensures o.code != IgnoredOption
    ensures o.code == EmptyInput <==> |data| == 0
    ensures dir == Encode ==> o.code != InvalidInput
    ensures o.code != Ok ==> o.result == []
  {
    match dir
    case Encode =>
      if EncodingLength(p, |data|) == 0 then Outcome(EmptyInput, [])
      else Outcome(Ok, Encoding(p, data))
    case Decode =>
      if DecodingLength(p, |data|) == 0 then Outcome(EmptyInput, [])
      else
        match Decoding(p, data)
        case None => Outcome(InvalidInput, [])
        case Some(r) => Outcome(Ok, r)
  }

  /** A decode call fails exactly on a nonempty text holding a character
      that is neither a line break, a pad nor in the alphabet. */
  lemma {:induction false} WorkInvalid(p: Params, data: seq<byte>)
    requires Valid(p)
    ensures Work(p, Decode, data).code == InvalidInput <==>
      |data| > 0 && exists i :: 0 <= i < |data| && CheckChar(p, data[i]) == Invalid
  {
    DecodingIsSymbolBits(p, data);
    ValuesFailIffInvalid(p, data);
  }

  /** A successful decode fits the buffer reserved for it, and so does an
      encoding without line breaks; with padding on, that encoding fills
      the buffer exactly. */
  lemma {:induction false} WorkFits(p: Params, data: seq<byte>)
    requires Valid(p)
    ensures var o := Work(p, Decode, data);
      o.code == Ok ==> |o.result| <= DecodingLength(p, |data|)
    ensures var o := Work(p, Encode, data);
      o.code == Ok && !p.chunkled ==> |o.result| <= EncodingLength(p, |data|)
    ensures var o := Work(p, Encode, data);
      o.code == Ok && !p.chunkled && p.padding ==> |o.result| == EncodingLength(p, |data|)
  {
    if Decoding(p, data).Some? {
      DecodingWithinEstimate(p, data);
    }
    if !p.chunkled {
      UnchunkedWithinEstimate(p, data);
    }
  }

  /** With line breaks on, 114 bytes of base64 make an encode call write
      156 bytes into the 154 it reserved. */
  lemma {:induction false} WorkOverrun(p: Params, data: seq<byte>)
    requires IsBase64(p) && p.chunkled && p.padding
    requires |data| == 114
    ensures Work(p, Encode, data).code == Ok
    ensures |Work(p, Encode, data).result| == 156 > 154 == EncodingLength(p, |data|)
  {
    ChunkedOverrun(p, data);
  }

  /** Decoding what an encode call wrote gives back the input, except that
      a short final block of zero bytes is lost. */
  lemma {:induction false} WorkRoundTrip(p: Params, data: seq<byte>)
    requires Valid(p)
    requires |data| > 0
    ensures Work(p, Encode, data).code == Ok
    ensures var block := LeftBlock(p, data);
      Work(p, Decode, Work(p, Encode, data).result) ==
        if block != [] && (forall i :: 0 <= i < |block| ==> block[i] == 0)
        then Outcome(Ok, data[..|data| - |block|])
        else Outcome(Ok, data)
  {
    var E := Encoding(p, data);
    assert Work(p, Encode, data) == Outcome(Ok, E);
    assert DecodingLength(p, |E|) != 0 by {
      RoundTripFlushed(p, data);
      DecodingWithinEstimate(p, E);
    }
    RoundTripAsWritten(p, data);
  }

  /** `baseN_work` over the corrected codec. */
  function WorkCorrected(p: Params, dir: Direction, data: seq<byte>): (o: Outcome)
    requires Valid(p)
    ensures o.code != IgnoredOption
    ensures o.code == EmptyInput <==> |data| == 0
    ensures dir == Encode ==> o.code != InvalidInput
    ensures o.code != Ok ==> o.result == []
  {
    match dir
    case Encode =>
      if EncodingLength(p, |data|) == 0 then Outcome(EmptyInput, [])
      else Outcome(Ok, EncodingLines(p, data))
    case Decode =>
      if DecodingLength(p, |data|) == 0 then Outcome(EmptyInput, [])
      else
        match DecodingFlushed(p, data)
        case None => Outcome(InvalidInput, [])
        case Some(r) => Outcome(Ok, r)
  }

  /** The correction changes no return code: both entry points fail, and
      report an empty input, on the same inputs. */
  lemma {:induction false} WorkSameCodes(p: Params, dir: Direction, data: seq<byte>)
    requires Valid(p)
    ensures WorkCorrected(p, dir, data).code == Work(p, dir, data).code
  {
    DecodingIsSymbolBits(p, data);
    DecodingFlushedIsSymbolBits(p, data);
  }

  /** The corrected entry point: whatever a successful call writes fits
      the buffer it reserved; with padding on, an encoding fills it
      exactly. */
  lemma {:induction false} WorkCorrectedFits(p: Params, dir: Direction, data: seq<byte>)
    requires Valid(p)
    ensures var o := WorkCorrected(p, dir, data);
      o.code == Ok ==>
        |o.result| <= (if dir == Encode then EncodingLength(p, |data|) else DecodingLength(p, |data|))
    ensures var o := WorkCorrected(p, Encode, data);
      o.code == Ok && p.padding ==> |o.result| == EncodingLength(p, |data|)
  {
    EncodingLinesWithinEstimate(p, data);
    if DecodingFlushed(p, data).Some? {
      DecodingWithinEstimate(p, data);
    }
  }

  /** The corrected entry point: decoding what an encode call wrote gives
      back the input. */
  lemma {:induction false} WorkCorrectedRoundTrip(p: Params, data: seq<byte>)
    requires Valid(p)
    requires |data| > 0
    ensures WorkCorrected(p, Encode, data).code == Ok
    ensures WorkCorrected(p, Decode, WorkCorrected(p, Encode, data).result) == Outcome(Ok, data)
  {
    var E := EncodingLines(p, data);
    assert WorkCorrected(p, Encode, data) == Outcome(Ok, E);
    assert DecodingFlushed(p, E) == Some(data) by {
      EncodingLinesRoundTrip(p, data);
    }
    assert DecodingLength(p, |E|) != 0 by {
      DecodingWithinEstimate(p, E);
    }
  }
}
