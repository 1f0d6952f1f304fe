# baseN: a parameterised base-N codec, modelled in Dafny

`src/baseN.c` is a generic binary-to-text codec, the scheme of RFC 4648
(base64, base32 and base16 are instances). A parameter record fixes the
block size `group` (bytes), the symbol width `bitslen` (bits), the number
of symbols per block `egroup = group*8/bitslen`, the `mask` of one
symbol, the two alphabet tables `entable` (symbol value to character)
and `detable` (character to symbol value, `0xff` when not in the
alphabet), and two flags: `chunkled` (a CRLF whenever the output index
is a positive multiple of 76) and `padding` (`=` after a short last
block).

The model covers the whole file:

- `params.dfy` (module `BaseN`): the record, `baseN_init` as `Init`,
  `baseN_setup` as `Setup` over an option datatype, and `Valid`, the
  conditions the codec relies on: `1 <= bitslen <= 7`,
  `mask == 2^bitslen - 1`, `group*8` divisible by `bitslen`,
  `group <= 7` (the encoder's 64-bit window holds `group + 1` bytes),
  inverse tables, and CR, LF and `=` outside the alphabet.
- `encoder.dfy` (module `Encoder`): `_chunk` as `Chunk`, one output
  character as `Put`, `_encoding_group`'s symbol loop as `LoopValues`,
  `_encoding_left` as `EncodeLeft`, `baseN_encoding` as `Encoding`, and
  `baseN_encoding_length` as `EncodingLength`. `Stream` is the output with
  chunking off, the plain run of symbols and pads. The theorems relate
  the chunked output to `Stream`: where the line breaks sit, what is left
  once they are stripped, how long the output is, and which bits each
  symbol carries.
- `decoder.dfy` (module `Decoder`): `_check_char` as `CheckChar`,
  `_decoding_group` as `DecodeGroup`, the loop of `baseN_decoding` as a
  fold `Scan` of `Step` over the characters, the tail handling as
  `Finish`, and `baseN_decoding_length` as `DecodingLength`. `Values`
  is an independent reading of a text: the alphabet positions of its
  symbol characters. `Inv` ties the loop state to the bits of those
  positions.
- `roundtrip.dfy` (module `RoundTrip`): what the decoder makes of what
  the encoder writes, for every valid record and both flags.
- `base64.dfy` (module `Base64`): the base64 alphabet of section 4 of
  RFC 4648 as a record, as a concrete instance.
- `vectors.dfy` (module `Vectors`): the one-block vectors of section 10
  of RFC 4648 (`f`, `fo`, `foo`), and a single zero byte.
- `findings.dfy` (module `Findings`): two defects of the source, each
  modelled as written and corrected.
- `work.dfy` (module `Work`): `baseN_work`, the entry point and its
  result codes. `Work` runs the encoder and decoder as written;
  `WorkCorrected` runs them with both findings corrected.

Bytes are `byte = x: int | 0 <= x < 256`. The 64-bit accumulators are
unbounded naturals: with `group <= 7` neither window can overflow. The
encoder's window is read through the byte overlay at lines 140-142 as
big-endian arithmetic, `t = BigEndian(block) * 256`. The decoder's
`t |= v << shift` is a sum, since the fields of different symbols do not
overlap. Bit-level facts are proved through big-endian bit strings
(module `Bits`). Each shifted and masked field of a number is a slice of
its bit string, so both directions of the codec are regroupings of one
bit string.

Where the code departs from what it evidently intends, the model follows
the code:

- The code's chunk test counts the CRLF bytes already written (see
  finding 1).
- The code flushes the last short window only when its value is nonzero
  (see finding 2).
- `baseN_init` does not check that `group*8` divides by `bitslen`. It
  truncates. `Valid` requires the exact division, and `Init`'s contract
  says when the record it builds is valid.
- `baseN_work` reports `CODECEmptyInput` when the length estimate is
  zero, that is, for zero-length input.

## Model

| member | source | states |
|---|---|---|
| BaseN.Init | src/baseN.c:39-55 | both flags start on, `egroup` is the truncated `group*8/bitslen`, and the record is valid exactly when the block divides into whole symbols, the mask is `2^bitslen - 1` and the tables agree |
| BaseN.Setup | src/baseN.c:57-74 | the two known options set their own flag and nothing else and report `CODECOk`; any other option leaves the record unchanged and reports `CODECIgnoredOption`; validity is kept |
| Encoder.Chunk | src/baseN.c:118-133 | no contract of its own; its meaning is stated by `Encoder.ChunkedLayout`, `Encoder.StripEmit` and `Encoder.ChunkedLength` |
| Encoder.EncodeGroup | src/baseN.c:135-156 | no contract of its own; its meaning is stated by `Encoder.EncodeFullStream`, `Encoder.FullGroupSymbols` and `Encoder.GroupBits` |
| Encoder.EncodeLeft | src/baseN.c:158-177 | no contract of its own; its meaning is stated by `Encoder.EncodeLeftStream`, `Encoder.LeftFits` and `Encoder.LeftStreamLength` |
| Encoder.Encoding | src/baseN.c:179-195 | no contract of its own; its meaning is stated by `Encoder.EncodingIsEmittedStream`, `RoundTrip.EncodingValues` and `RoundTrip.RoundTripFlushed` |
| Encoder.EncodingLength | src/baseN.c:102-105 | the estimate is zero exactly for empty input |
| Encoder.EmitPlain | src/baseN.c:118-133 | with chunking off `_chunk` never inserts anything, so the output is the characters in order |
| Encoder.ChunkedLayout | src/baseN.c:118-133 | in chunked output CR sits exactly at the positive multiples of 76 and LF right after each CR; the first and last bytes are characters, not breaks |
| Encoder.StripEmit | src/baseN.c:118-133 | removing CR and LF from chunked output leaves the characters written, in order |
| Encoder.UnchunkedIsStripped | src/baseN.c:118-133 | the unchunked encoding is the chunked encoding with its line breaks removed, and equals the plain stream |
| Encoder.ChunkedLength | src/baseN.c:118-133 | a stream of m characters written through `_chunk` takes m plus two bytes per break, the first after 76 bytes and then one every 74 characters |
| Encoder.LoopValues | src/baseN.c:146-153 | every value the symbol loop reads is below `2^bitslen`, and the loop reads nothing from a window of 8 bits or fewer |
| Encoder.LoopValuesCount | src/baseN.c:146-153 | the loop reads just enough symbols to cover the bits above the spare low byte |
| Encoder.LoopValuesAt | src/baseN.c:146-153 | turn j of the loop reads the `bitslen`-wide field of the window that ends `shift` bits above the bottom |
| Encoder.GroupValuesCount | src/baseN.c:135-156 | a block of n bytes yields `ceil(8n/bitslen)` symbols |
| Encoder.FullGroupCount | src/baseN.c:135-156 | a full block yields exactly `egroup` symbols |
| Encoder.FullGroupSymbols | src/baseN.c:135-156 | symbol j of a full block V is `(V >> (group*8 - (j+1)*bitslen)) & mask`, V read big-endian |
| Encoder.GroupBits | src/baseN.c:135-156 | the symbols of a block carry the block's bits, most significant first, followed by fewer than `bitslen` zero bits |
| Encoder.LeftFits | src/baseN.c:158-177 | a short block always has fewer than `egroup` symbols, so it takes at least one pad |
| Encoder.LeftStreamLength | src/baseN.c:158-177 | a short block adds `egroup` characters with padding on and `ceil(8*left/bitslen)` without; no short block adds nothing |
| Encoder.EncodeFullStream | src/baseN.c:187-192 | the loop over full blocks writes their symbols, one after another, through `_chunk` |
| Encoder.EncodeLeftStream | src/baseN.c:158-177 | `_encoding_left` writes the short block's symbols and then its pads through `_chunk` |
| Encoder.EncodingIsEmittedStream | src/baseN.c:179-195 | the encoder's output is the plain stream written through `_chunk` |
| Encoder.StreamLength | src/baseN.c:179-195 | the plain stream holds `egroup` characters per full block plus the short block's characters |
| Encoder.StreamNoBreaks | src/baseN.c:179-195 | the plain stream never holds CR or LF |
| Encoder.StreamSameFlags | src/baseN.c:179-195 | the plain stream does not depend on the chunking flag |
| Encoder.UnchunkedWithinEstimate | src/baseN.c:102-116 | with chunking off the output fits the estimate, and fills it exactly with padding on |
| Encoder.PaddedStreamLength | src/baseN.c:102-116 | with padding on the plain stream holds `ceil(datalen/group)*egroup` characters |
| Encoder.ChunkedWithinEstimateUpTo150 | src/baseN.c:102-116 | with both flags on, the estimate is exact while the stream has at most 150 characters |
| Decoder.CheckChar | src/baseN.c:208-211 | CR, LF and `=` are skipped, and only they |
| Decoder.CheckCharAlphabet | src/baseN.c:208-218 | a character is a symbol exactly when it is in the alphabet and invalid exactly when it is neither skipped nor in the alphabet; a symbol's value is its position in `entable` |
| Decoder.DecodeGroup | src/baseN.c:220-225 | `_decoding_group` writes exactly the n bytes asked for |
| Decoder.DecodeGroupBits | src/baseN.c:220-227 | those n bytes are the first n bytes of the window's bit string, most significant first |
| Decoder.ValuesFailIffInvalid | src/baseN.c:245-252 | reading a text fails exactly when one of its characters is invalid, wherever it sits |
| Decoder.Step | src/baseN.c:254-261 | the symbol count stays below `egroup` |
| Decoder.StepInv | src/baseN.c:254-261 | one symbol keeps the loop invariant: the output is the bytes of the whole windows so far and the accumulator holds the open window's symbols in their fields |
| Decoder.Scan | src/baseN.c:245-261 | the symbol count it ends with is below `egroup`; what the loop computes is stated by `Decoder.ScanValues` |
| Decoder.ScanValues | src/baseN.c:245-261 | the loop fails exactly when the reading fails, and otherwise ends in the invariant for the values read |
| Decoder.TailBytes | src/baseN.c:263-265 | a short last window holds fewer than `group` bytes |
| Decoder.WindowZero | src/baseN.c:263-265 | the accumulator of a short window is zero exactly when all its symbols are zero |
| Decoder.FinishBytes | src/baseN.c:263-265 | the tail handling as written keeps the short window's bytes unless all its symbols are zero |
| Decoder.FinishFlushedBytes | src/baseN.c:263-265 | flushing on `k > 0` alone yields the bytes of every symbol read |
| Decoder.Finish | src/baseN.c:263-265 | no contract of its own; its meaning is stated by `Decoder.FinishBytes` |
| Decoder.Decoding | src/baseN.c:229-269 | no contract of its own; its meaning is stated by `Decoder.DecodingIsSymbolBits` and `RoundTrip.RoundTripAsWritten` |
| Decoder.DecodingFlushed | src/baseN.c:229-269 | `baseN_decoding` with the flush of finding 2 corrected; no contract of its own, its meaning is stated by `Decoder.DecodingFlushedIsSymbolBits` and `RoundTrip.RoundTripFlushed` |
| Decoder.DecodingIsSymbolBits | src/baseN.c:229-269 | `baseN_decoding` as written fails exactly on an invalid character; otherwise it yields the bytes of the symbols' bits, less an all-zero short window |
| Decoder.DecodingFlushedIsSymbolBits | src/baseN.c:229-269 | the corrected decoder fails exactly on an invalid character, and otherwise yields the bytes of all the symbols' bits |
| Decoder.DecodingIgnoresFlags | src/baseN.c:229-269 | neither decoder reads `padding` or `chunkled`: two records that differ only in the flags decode every text alike |
| Decoder.DecodingLength | src/baseN.c:198-201 | the estimate is zero exactly for empty input |
| Decoder.DecodingWithinEstimate | src/baseN.c:198-206 | whatever either decoder writes fits in `ceil(datalen/egroup)*group` bytes, and the decoder as written never writes more than the corrected one |
| RoundTrip.ValuesSymbols | src/baseN.c:208-218 | reading the characters of a run of symbol values gives the values back |
| RoundTrip.ValuesStrip | src/baseN.c:245-249 | line breaks anywhere in a text do not change its reading |
| RoundTrip.EncodingValues | src/baseN.c:179-195 | the encoder's output, chunked or not, padded or not, reads back as the symbol values it encoded |
| RoundTrip.FullValuesBits | src/baseN.c:187-194 | the full blocks' symbols carry the data's bits up to the short block, the last `datalen % group` bytes, whose bits follow |
| RoundTrip.EncValuesBits | src/baseN.c:135-177 | the symbol values carry the data's bits followed by fewer than 8 zero bits |
| RoundTrip.RoundTripFlushed | src/baseN.c:229-269 | the corrected decoder inverts the encoder on every input and every flag setting |
| RoundTrip.RoundTripAsWritten | src/baseN.c:263-265 | the decoder as written inverts the encoder except on data ending in a short block of zero bytes, which it drops |
| RoundTrip.RoundTripKeptTail | src/baseN.c:229-269 | the decoder as written inverts the encoder on whole blocks and on a short last block holding a nonzero byte |
| RoundTrip.EncodingDecodes | src/baseN.c:229-269 | what the decoder as written makes of an encoding, in terms of the full blocks' and the short block's symbols |
| Base64.Params64Valid | src/baseN.c:39-55 | the base64 record built by `baseN_init(p, 3, 6, ...)` with mask `0x3f` is valid, with four symbols per block and both flags on |
| Base64.Params64IsBase64 | src/baseN.c:39-55 | that record has the base64 shape and alphabet |
| Vectors.VectorFEncode | src/baseN.c:158-177 | `f` encodes to `Zg==` |
| Vectors.VectorFDecode | src/baseN.c:229-269 | `Zg==` decodes to `f`, whatever the flags |
| Vectors.VectorFoEncode | src/baseN.c:158-177 | `fo` encodes to `Zm8=` |
| Vectors.VectorFoDecode | src/baseN.c:229-269 | `Zm8=` decodes to `fo`, whatever the flags |
| Vectors.VectorFooEncode | src/baseN.c:135-156 | `foo` encodes to `Zm9v` |
| Vectors.VectorFooDecode | src/baseN.c:229-269 | `Zm9v` decodes to `foo` |
| Vectors.VectorZeroEncode | src/baseN.c:158-177 | the byte `0x00` encodes to `AA==` |
| Vectors.VectorZeroDecode | src/baseN.c:263-265 | `AA==` decodes to nothing as written and to `0x00` with the corrected flush, whatever the flags |
| Vectors.ShortText | src/baseN.c:158-177 | data shorter than one block encodes to its symbols and its pads, with no line break |
| Vectors.OneBlockText | src/baseN.c:179-195 | data of exactly one block encodes to its `egroup` symbols |
| Findings.ChunkedAgainstEstimate | src/baseN.c:102-116 | with both flags on, the encoder writes `m + 2*Breaks(m)` bytes for a stream of m characters, while the estimate reserves `m + 2*((m-1)/76)` |
| Findings.ChunkedOverrun | src/baseN.c:125-127 | 114 bytes in base64 with both flags on take 156 bytes, and the estimate reserves 154 |
| Findings.Lines | src/baseN.c:118-133 | `_chunk` with the test of finding 1 corrected; no contract of its own, its meaning is stated by `Findings.LinesLength`, `Findings.LinesStrip` and `Findings.LinesLayout` |
| Findings.EncodingLines | src/baseN.c:179-195 | `baseN_encoding` with the line breaking of finding 1 corrected; no contract of its own, its meaning is stated by `Findings.EncodingLinesWithinEstimate` and `Findings.EncodingLinesRoundTrip` |
| Findings.LinesLength | src/baseN.c:111-113 | a CRLF after every 76 characters adds exactly the `2*((len-1)/76)` bytes the estimate reserves |
| Findings.LinesStrip | src/baseN.c:118-133 | the corrected line breaking adds nothing but the breaks |
| Findings.LinesLayout | src/baseN.c:118-133 | in the corrected layout CR sits exactly at the positions 76 modulo 78 and LF right after it |
| Findings.StreamWithinBlocks | src/baseN.c:102-116 | the plain stream holds at most `egroup` characters per started block, exactly that many with padding on |
| Findings.EncodingLinesWithinEstimate | src/baseN.c:76-84 | the corrected encoder always fits the buffer `baseN_work` reserves, and fills it exactly with padding on |
| Findings.SameCharacters | src/baseN.c:118-133 | the corrected and the original encoder write the same characters and differ only in where the breaks go |
| Findings.EncodingLinesRoundTrip | src/baseN.c:229-269 | the corrected decoder inverts the corrected encoder |
| Work.Work | src/baseN.c:76-99 | as written: `CODECEmptyInput` exactly for empty input; encoding never reports an invalid input; `CODECIgnoredOption` never comes back; an error leaves no result (see Left out) |
| Work.WorkInvalid | src/baseN.c:87-95 | a decode call reports `CODECInvalidInput` exactly when a nonempty text holds a character that is neither a break, a pad nor in the alphabet |
| Work.WorkFits | src/baseN.c:76-99 | as written: a successful decode fits the buffer it reserved, and so does an encoding with chunking off, which fills it exactly with padding on |
| Work.WorkOverrun | src/baseN.c:76-85 | as written: an encode call of 114 bytes in base64 with both flags on succeeds having written 156 bytes into the 154 it reserved |
| Work.WorkRoundTrip | src/baseN.c:76-99 | as written: decoding what an encode call of nonempty data wrote succeeds with that data, less a short last block made only of zero bytes |
| Work.WorkCorrected | src/baseN.c:76-99 | the entry point with both findings corrected: the same guarantees on codes and empty results as `Work.Work` |
| Work.WorkSameCodes | src/baseN.c:76-99 | the corrections change no return code: both entry points report an empty and an invalid input on the same inputs |
| Work.WorkCorrectedFits | src/baseN.c:76-99 | with both findings corrected, whatever a successful call writes fits the buffer it reserved, and an encoding fills it exactly with padding on |
| Work.WorkCorrectedRoundTrip | src/baseN.c:76-99 | with both findings corrected, decoding what an encode call of nonempty data wrote succeeds with exactly that data |

## Findings

| source | as written | input that shows it | evidently intended | confidence | as-written member | corrected member |
|---|---|---|---|---|---|---|
| src/baseN.c:125-127 | `_chunk` tests `idx % 76`, and `idx` counts the CRLF bytes already written, so the first line holds 76 characters and later lines 74; `baseN_work` sizes the buffer with `baseN_encoding_length`, which counts 76 per line, and the encoder writes past it | base64, 114 data bytes, chunking and padding on: 152 characters written as 76 + CRLF + 74 + CRLF + 2 = 156 bytes into a 154-byte buffer | a CRLF after every 76 characters, the layout `baseN_encoding_length` (src/baseN.c:110-112) sizes for; section 6.8 of RFC 2045 only caps lines at 76 characters, which both layouts meet; this layout fills the estimate exactly | not executed | Findings.ChunkedOverrun | Findings.EncodingLinesWithinEstimate |
| src/baseN.c:263-265 | the short last window is written out only when `k > 0 && t`, so a window whose symbols are all zero is dropped | base64 `[0x00]` encodes to `AA==`, which decodes to no bytes with `CODECOk` | flush whenever `k > 0`, so that decoding inverts encoding | not executed | Vectors.VectorZeroDecode | RoundTrip.RoundTripFlushed |

## Left out

- `CODECDATA_REINIT` and the `CODECBase`/`CODECData` plumbing of `baseN_work` (lines 83 and 92) are not modelled. Their macros and types are not part of this model. `Work.Work` returns the code and the bytes written.
- `Work.Work` and `Work.WorkCorrected` return no bytes with an error code. The C function leaves whatever the decoder wrote before the invalid character in the result buffer.
- The overrun of finding 1 is shown as a length that exceeds the reserved size. Writing past a buffer is memory corruption, which sequences cannot express.
- The `cdcassert` checks (lines 40-45, 180-182, 230-232) are preconditions: non-null pointers have no counterpart, and the numeric checks are the `requires` of `Init`.
- The `!data` branches (lines 183 and 234) are not modelled, because a sequence is never null. Only the zero-length case is modelled.
- The terminating `buf[0] = 0` on empty input is not modelled. It writes past the result length of 0.
- `va_list`/`va_arg` parsing in `baseN_setup` is an option datatype. The `long` argument is a `bool`, where nonzero means on.
- The `double` and `float` `ceil` in the estimators and in `_encoding_left` (lines 107-108, 167-168, 203-204) are integer ceiling division. Floating-point rounding at sizes near 2^53 is not modelled.
- `size_t` and `uint64_t` are unbounded naturals. Overflow of `size_t` at huge lengths is not modelled. The 64-bit windows cannot overflow under `group <= 7`.
- The host-endianness dependence of the byte overlay at lines 140-142 is not modelled. The overlay is big-endian arithmetic, the meaning on a little-endian host.
- The `byte`-typed `bitlens` of `baseN_decoding` (line 244) is an unbounded natural. It is `group*8 - bitslen` at most 55, so no truncation happens.
- Alphabet tables are parameters, because their construction lives in other files. `Base64.Params64` is one concrete record.
- The commented-out alternative chunk test (lines 119-124, 136) is not modelled.
