/** The `baseN` parameter record, its construction (`baseN_init`), the option
    toggles (`baseN_setup`) and the codec's result codes. */
module BaseN {
  import opened Arith
  import opened Bits

  /** `_chunklen`: line width of chunked output. */
  const ChunkLen: nat := 76
  const CR: byte := 13
  const LF: byte := 10
  /** The pad character `=`. */
  const Pad: byte := 61
  /** The `detable` entry of a character outside the alphabet. */
  const NotInAlphabet: byte := 0xff

  datatype Code = Ok | EmptyInput | InvalidInput | IgnoredOption

  datatype Option<T> = None | Some(value: T)

  datatype Params = Params(
    group: nat,          // bytes per block
    bitslen: nat,        // bits per symbol
    egroup: nat,         // symbols per block
    mask: nat,           // isolates one symbol's bits
    entable: seq<byte>,  // symbol value -> character
    detable: seq<byte>,  // character -> symbol value, or NotInAlphabet
    chunkled: bool,      // break lines every ChunkLen bytes
    padding: bool)       // pad a short last block with '='

  /** The alphabet tables are mutually inverse and leave CR, LF and '=' free. */
  predicate TablesAgree(bitslen: nat, entable: seq<byte>, detable: seq<byte>)
  {
    && |entable| == Pow2(bitslen)
    && |detable| == 256
    && (forall v :: 0 <= v < |entable| ==> detable[entable[v]] == v)
    && (forall c: byte :: c !in entable ==> detable[c] == NotInAlphabet)
    && CR !in entable && LF !in entable && Pad !in entable
  }

  /** A record the codec can work with: the asserted bounds of `baseN_init`,
      exact division of the block's bits into symbols (`egroup` is then
      `group*8/bitslen` with no remainder), a block that fits the 64-bit
      window with one spare byte, and consistent tables. */
  predicate Valid(p: Params)
  {
    Shape(p) && MaskFits(p) && TablesAgree(p.bitslen, p.entable, p.detable)
  }

  /** What the encoder needs of a record: the arithmetic part of `Valid`
      and an alphabet with one character per symbol value. */
  predicate Encodable(p: Params)
  {
    Shape(p) && MaskFits(p) && |p.entable| == Pow2(p.bitslen)
  }

  /** The block arithmetic of `Valid`. */
  predicate Shape(p: Params)
  {
    && 1 <= p.bitslen <= 7
    && 1 <= p.group <= 7
    && ExactFill(p.group, p.bitslen, p.egroup)
  }

  /** egroup symbols of bitslen bits fill a block of group bytes exactly:
      `egroup * bitslen == group * 8`, spelled out per symbol width (see
      `ExactFillProduct`). */
  predicate ExactFill(group: nat, bitslen: nat, egroup: nat)
  {
    if bitslen == 1 then egroup == 8 * group
    else if bitslen == 2 then 2 * egroup == 8 * group
    else if bitslen == 3 then 3 * egroup == 8 * group
    else if bitslen == 4 then 4 * egroup == 8 * group
    else if bitslen == 5 then 5 * egroup == 8 * group
    else if bitslen == 6 then 6 * egroup == 8 * group
    else if bitslen == 7 then 7 * egroup == 8 * group
    else false
  }

  lemma {:induction false} ExactFillProduct(group: nat, bitslen: nat, egroup: nat)
    ensures ExactFill(group, bitslen, egroup) <==> 1 <= bitslen <= 7 && egroup * bitslen == group * 8
  {
  }

  /** `mask` isolates the low bitslen bits. */
  predicate MaskFits(p: Params)
  {
    p.mask + 1 == Pow2(p.bitslen)
  }

  /** The part of `Valid` the symbol loops need: a symbol width the 64-bit
      window can shift through, and the mask that isolates one symbol. */
  predicate SymbolWidth(p: Params)
  {
    1 <= p.bitslen <= 7 && MaskFits(p)
  }

  /** Facts about a valid record used throughout. */
  lemma {:induction false} ValidFacts(p: Params)
    requires Shape(p)
    ensures p.egroup * p.bitslen == p.group * 8
    ensures 2 <= p.egroup <= 56
  {
    ExactFillProduct(p.group, p.bitslen, p.egroup);
  }

  /** The linear consequences of `Shape`. */
  lemma {:induction false} ShapeBounds(p: Params)
    requires Shape(p)
    ensures 2 <= p.egroup <= 56
    ensures p.bitslen < 8 <= p.group * 8
  {
  }

  /** `baseN_init`: defaults both options on and truncates `group*8/bitslen`. */
  function Init(group: byte, bitslen: byte, entable: seq<byte>, detable: seq<byte>, mask: nat): (p: Params)
    requires group > 0
    requires 0 < bitslen < 8
    requires mask > 0
    ensures p.chunkled && p.padding
    ensures p.group == group && p.bitslen == bitslen && p.mask == mask
    ensures p.entable == entable && p.detable == detable
    ensures p.egroup * bitslen <= group * 8 < (p.egroup + 1) * bitslen
    ensures Valid(p) <==>
      group <= 7 && group * 8 % bitslen == 0 && mask == Pow2(bitslen) - 1
      && TablesAgree(bitslen, entable, detable)
  {
    Params(group, bitslen, group * 8 / bitslen, mask, entable, detable, true, true)
  }

  /** The options `baseN_setup` understands; `Other` is any other option. */
  datatype SetupOption = ChunkLine(on: bool) | Padding(on: bool) | Other(id: int)

  /** `baseN_setup`: sets one flag, or reports an option it does not know. */
  function Setup(p: Params, opt: SetupOption): (r: (Params, Code))
    ensures r.1 == Ok <==> !opt.Other?
    ensures r.1 == IgnoredOption <==> opt.Other?
    ensures opt.Other? ==> r.0 == p
    ensures opt.ChunkLine? ==> r.0.chunkled == opt.on && r.0.padding == p.padding
    ensures opt.Padding? ==> r.0.padding == opt.on && r.0.chunkled == p.chunkled
    ensures r.0.(chunkled := p.chunkled, padding := p.padding) == p
    ensures Valid(p) ==> Valid(r.0)
  {
    match opt
    case ChunkLine(on) => (p.(chunkled := on), Ok)
    case Padding(on) => (p.(padding := on), Ok)
    case Other(_) => (p, IgnoredOption)
  }

  /** The characters `entable` assigns to a run of symbol values. */
  function Symbols(p: Params, vs: seq<nat>): (s: seq<byte>)
    requires Encodable(p)
    requires forall i :: 0 <= i < |vs| ==> vs[i] < Pow2(p.bitslen)
  {
    seq(|vs|, i requires 0 <= i < |vs| => p.entable[vs[i]])
  }

  /** n pad characters. */
  function Pads(n: nat): seq<byte>
  {
    seq(n, i => Pad)
  }

  predicate IsBreak(c: byte)
  {
    c == CR || c == LF
  }

  predicate NoBreaks(s: seq<byte>)
  {
    forall i :: 0 <= i < |s| ==> !IsBreak(s[i])
  }

  /** The text with every CR and LF removed. */
  function StripBreaks(s: seq<byte>): seq<byte>
  {
    if s == [] then []
    else StripBreaks(s[..|s| - 1]) + (if IsBreak(s[|s| - 1]) then [] else [s[|s| - 1]])
  }

  lemma {:induction false} StripBreaksAppend(a: seq<byte>, b: seq<byte>)
    ensures StripBreaks(a + b) == StripBreaks(a) + StripBreaks(b)
    decreases |b|
  {
    if b == [] {
      assert a + b == a;
    } else {
      var b' := b[..|b| - 1];
      assert (a + b)[..|a + b| - 1] == a + b';
      assert (a + b)[|a + b| - 1] == b[|b| - 1];
      StripBreaksAppend(a, b');
    }
  }

  lemma {:induction false} StripNoBreaks(s: seq<byte>)
    requires NoBreaks(s)
    ensures StripBreaks(s) == s
  {
    if s != [] {
      StripNoBreaks(s[..|s| - 1]);
      assert s == s[..|s| - 1] + [s[|s| - 1]];
    }
  }
}
