/** Two places where `baseN.c` does not do what it evidently means to, each
    modelled as written with the input that shows it, and corrected with
    the intended property proved.

    1. `_chunk` tests the output index, which counts the CRLF bytes already
       written, so only the first line holds 76 symbols and later ones 74;
       `baseN_encoding_length` counts 76 per line, and the encoder then
       writes past the buffer `baseN_work` reserved. Corrected: `Lines`,
       a CRLF after every 76 characters of the stream, the layout
       `baseN_encoding_length` (src/baseN.c:110-112) sizes for; section
       6.8 of RFC 2045 only caps lines at 76 characters, which both
       layouts meet.
    2. `baseN_decoding` flushes a short last window only when `t != 0`, so
       a short last block of zero bytes vanishes. Corrected:
       `DecodingFlushed`, proved a left inverse of the encoder in
       `RoundTrip.RoundTripFlushed`. */
module Findings {
  import opened Arith
  import opened Bits
  import opened BaseN
  import opened Decoder
  import opened Encoder
  import opened RoundTrip
  import opened Base64

  // ---------------------------------------------------------------------
  // 1. Chunked output against the length estimate, as written

  /** With chunking and padding on, the encoder writes m + 2*Breaks(m)
      bytes for a stream of m characters, while the estimate reserves
      m + 2*((m-1)/76). */
  lemma {:induction false} ChunkedAgainstEstimate(p: Params, data: seq<byte>)
    requires Encodable(p) && p.chunkled && p.padding
    requires |data| > 0
    ensures |Stream(p, data)| >= 1
    ensures |Encoding(p, data)| == |Stream(p, data)| + 2 * Breaks(|Stream(p, data)|)
    ensures EncodingLength(p, |data|) == |Stream(p, data)| + (|Stream(p, data)| - 1) / ChunkLen * 2
  {
    var S := Stream(p, data);
    var m := |S|;
    assert m == CeilDiv(|data|, p.group) * p.egroup by {
      PaddedStreamLength(p, data);
    }
    assert m >= 1 && EncodingLength(p, |data|) == m + (m - 1) / ChunkLen * 2 by {
      ChunkedEstimate(p, |data|, m);
    }
    assert |Encoding(p, data)| == m + 2 * Breaks(m) by {
      EncodingIsEmittedStream(p, data);
      ChunkedLength(p, S);
    }
  }

  /** 114 bytes in base64 with line breaks: 152 characters, written as
      76 + CRLF + 74 + CRLF + 2, that is 156 bytes, into a buffer of 154.
      `Base64.Params64` is such a record. */
  lemma {:induction false} ChunkedOverrun(p: Params, data: seq<byte>)
    requires IsBase64(p) && p.chunkled && p.padding
    requires |data| == 114
    ensures |Encoding(p, data)| == 156
    ensures EncodingLength(p, |data|) == 154
  {
    assert |Stream(p, data)| == 152 by {
      PaddedStreamLength(p, data);
      CeilDivOf(114, 3, 38);
    }
    assert |Encoding(p, data)| == 152 + 2 * Breaks(152) && EncodingLength(p, 114) == 152 + 151 / ChunkLen * 2 by {
      ChunkedAgainstEstimate(p, data);
    }
    assert Breaks(152) == 2;
  }

  // ---------------------------------------------------------------------
  // 1. Corrected: a line break after every 76 characters

  /** s with CR LF after every 76 characters, none at the end. */
  function Lines(s: seq<byte>): seq<byte>
    decreases |s|
  {
    if |s| <= ChunkLen then s else s[..ChunkLen] + [CR, LF] + Lines(s[ChunkLen..])
  }

  /** One CRLF per full line before the last: exactly what
      `baseN_encoding_length` adds. */
  lemma {:induction false} LinesLength(s: seq<byte>)
    ensures |Lines(s)| == |s| + (if s == [] then 0 else (|s| - 1) / ChunkLen * 2)
    decreases |s|
  {
    if |s| <= ChunkLen {
      if s != [] {
        DivModUnique(|s| - 1, ChunkLen, 0, |s| - 1);
      }
    } else {
      LinesLength(s[ChunkLen..]);
      DivSub(|s| - 1, ChunkLen);
    }
  }

  /** The breaks are the only thing added. */
  lemma {:induction false} LinesStrip(s: seq<byte>)
    requires NoBreaks(s)
    ensures StripBreaks(Lines(s)) == s
    decreases |s|
  {
    if |s| <= ChunkLen {
      StripNoBreaks(s);
    } else {
      var a, rest := s[..ChunkLen], s[ChunkLen..];
      assert NoBreaks(a) && NoBreaks(rest) by {
        assert forall i :: 0 <= i < |a| ==> a[i] == s[i];
        assert forall i :: 0 <= i < |rest| ==> rest[i] == s[ChunkLen + i];
      }
      assert StripBreaks(a + [CR, LF]) == a by {
        StripBreaksAppend(a, [CR, LF]);
        StripNoBreaks(a);
        StripBreaksOfBreak();
        assert a + [] == a;
      }
      assert StripBreaks(Lines(rest)) == rest by {
        LinesStrip(rest);
      }
      StripBreaksAppend(a + [CR, LF], Lines(rest));
      assert a + rest == s;
    }
  }

  /** Every line is 76 characters and a CRLF, the last one up to 76
      characters: CR sits exactly at the positions 76 modulo 78, LF right
      after it. */
  lemma {:induction false} LinesLayout(s: seq<byte>)
    requires NoBreaks(s)
    ensures forall i :: 0 <= i < |Lines(s)| ==>
      && (Lines(s)[i] == CR <==> i % (ChunkLen + 2) == ChunkLen)
      && (Lines(s)[i] == LF <==> i % (ChunkLen + 2) == ChunkLen + 1)
    decreases |s|
  {
    var L := Lines(s);
    if |s| <= ChunkLen {
      forall i | 0 <= i < |L|
        ensures L[i] != CR && L[i] != LF && i % (ChunkLen + 2) < ChunkLen
      {
        assert !IsBreak(s[i]);
        DivModUnique(i, ChunkLen + 2, 0, i);
      }
    } else {
      var a, rest := s[..ChunkLen], s[ChunkLen..];
      var R := Lines(rest);
      assert NoBreaks(rest) by {
        assert forall i :: 0 <= i < |rest| ==> rest[i] == s[ChunkLen + i];
      }
      LinesLayout(rest);
      assert L == a + [CR, LF] + R;
      forall i | 0 <= i < |L|
        ensures && (L[i] == CR <==> i % (ChunkLen + 2) == ChunkLen)
                && (L[i] == LF <==> i % (ChunkLen + 2) == ChunkLen + 1)
      {
        if i < ChunkLen + 2 {
          DivModUnique(i, ChunkLen + 2, 0, i);
          if i < ChunkLen {
            assert L[i] == s[i] && !IsBreak(s[i]);
          }
        } else {
          assert L[i] == R[i - (ChunkLen + 2)];
          DivSub(i, ChunkLen + 2);
        }
      }
    }
  }

  /** The encoder with the corrected line breaking. */
  function EncodingLines(p: Params, data: seq<byte>): seq<byte>
    requires Encodable(p)
  {
    if p.chunkled then Lines(Stream(p, data)) else Stream(p, data)
  }

  /** The stream has at most egroup characters per started block; exactly
      that many with padding on. */
  lemma {:induction false} StreamWithinBlocks(p: Params, data: seq<byte>)
    requires Encodable(p)
    ensures |Stream(p, data)| <= CeilDiv(|data|, p.group) * p.egroup
    ensures p.padding ==> |Stream(p, data)| == CeilDiv(|data|, p.group) * p.egroup
  {
    var n, g, e := |data|, p.group, p.egroup;
    var Q, left, C := n / g, n % g, CeilDiv(n, g);
    assert C == Q + (if left == 0 then 0 else 1) by {
      CeilDivGroups(p, n);
    }
    assert |Stream(p, data)| == Q * e +
      (if left == 0 then 0 else if p.padding then e else CeilDiv(8 * left, p.bitslen)) by {
      StreamLength(p, data);
    }
    if left > 0 {
      assert C * e == Q * e + e by {
        MulSucc(Q, e);
      }
      LeftFits(p, left);
    }
  }

  /** The corrected encoder fits the buffer `baseN_work` reserves, exactly
      when padding is on. */
  lemma {:induction false} EncodingLinesWithinEstimate(p: Params, data: seq<byte>)
    requires Encodable(p)
    ensures |EncodingLines(p, data)| <= EncodingLength(p, |data|)
    ensures p.padding ==> |EncodingLines(p, data)| == EncodingLength(p, |data|)
  {
    var S := Stream(p, data);
    var m, n := |S|, |data|;
    var C := CeilDiv(n, p.group);
    var L := C * p.egroup;
    assert m <= L && (p.padding ==> m == L) by {
      StreamWithinBlocks(p, data);
    }
    if n == 0 {
      assert C == 0;
      assert S == [];
    } else {
      assert L >= 1 by {
        ValidFacts(p);
        CeilDivPos(n, p.group);
        MulAtLeast(C, p.egroup);
      }
      assert EncodingLength(p, n) == if p.chunkled then L + (L - 1) / ChunkLen * 2 else L;
      if p.chunkled {
        assert |Lines(S)| == m + (if S == [] then 0 else (m - 1) / ChunkLen * 2) by {
          LinesLength(S);
        }
        if m > 0 {
          DivMono(m - 1, L - 1, ChunkLen);
        }
      }
    }
  }

  /** Both encoders write the same characters; they differ only in where
      the line breaks go. */
  lemma {:induction false} SameCharacters(p: Params, data: seq<byte>)
    requires Valid(p)
    ensures StripBreaks(EncodingLines(p, data)) == StripBreaks(Encoding(p, data)) == Stream(p, data)
  {
    StreamNoBreaks(p, data);
    UnchunkedIsStripped(p, data);
    if p.chunkled {
      LinesStrip(Stream(p, data));
    } else {
      StripNoBreaks(Stream(p, data));
    }
  }

  /** The corrected decoder inverts the corrected encoder. */
  lemma {:induction false} EncodingLinesRoundTrip(p: Params, data: seq<byte>)
    requires Valid(p)
    ensures DecodingFlushed(p, EncodingLines(p, data)) == Some(data)
  {
    var E := EncodingLines(p, data);
    assert Values(p, E) == Some(EncValues(p, data)) by {
      SameCharacters(p, data);
      ValuesStrip(p, E);
      StreamValues(p, data);
    }
    DecodingFlushedIsSymbolBits(p, E);
    EncValuesBytes(p, data);
  }

}
