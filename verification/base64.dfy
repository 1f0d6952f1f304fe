/** The base64 alphabet of section 4 of RFC 4648 as a `baseN` record:
    3-byte blocks, 6-bit symbols, mask 63. */
module Base64 {
  import opened Arith
  import opened Bits
  import opened BaseN

  /** The character of symbol value v: `A`-`Z`, `a`-`z`, `0`-`9`, `+`, `/`. */
  function EncChar(v: nat): (c: byte)
    requires v < 64
  {
    if v < 26 then 65 + v
    else if v < 52 then 97 + (v - 26)
    else if v < 62 then 48 + (v - 52)
    else if v == 62 then 43
    else 47
  }

  /** The symbol value of character c, or `NotInAlphabet`. */
  function DecChar(c: byte): (v: byte)
  {
    if 65 <= c <= 90 then c - 65
    else if 97 <= c <= 122 then c - 97 + 26
    else if 48 <= c <= 57 then c - 48 + 52
    else if c == 43 then 62
    else if c == 47 then 63
    else NotInAlphabet
  }

  /** Decoding a character undoes encoding, and only alphabet characters
      decode. */
  lemma {:induction false} CharsInverse()
    ensures forall v: nat :: v < 64 ==> DecChar(EncChar(v)) == v
    ensures forall c: byte :: DecChar(c) != NotInAlphabet ==> DecChar(c) < 64 && EncChar(DecChar(c)) == c
    ensures forall v: nat :: v < 64 ==> EncChar(v) != CR && EncChar(v) != LF && EncChar(v) != Pad
  {
  }

  const Entable: seq<byte> := seq(64, v requires 0 <= v < 64 => EncChar(v))
  const Detable: seq<byte> := seq(256, c requires 0 <= c < 256 => DecChar(c))

  /** The record `baseN_init(p, 3, 6, entable, detable, 0x3f)` builds. */
  const Params64: Params := Init(3, 6, Entable, Detable, 63)

  /** The base64 tables satisfy everything the codec asks of a record. */
  lemma {:induction false} Params64Valid()
    ensures Valid(Params64)
    ensures Params64.group == 3 && Params64.egroup == 4 && Params64.bitslen == 6
    ensures Params64.chunkled && Params64.padding
  {
    CharsInverse();
    assert Pow2(6) == 64 by {
      assert Pow2(2) == 4;
      assert Pow2(4) == 16;
    }
    assert forall v :: 0 <= v < |Entable| ==> Detable[Entable[v]] == v;
    forall c: byte | DecChar(c) != NotInAlphabet
      ensures c in Entable
    {
      assert Entable[DecChar(c)] == c;
    }
    assert CR !in Entable && LF !in Entable && Pad !in Entable;
    assert TablesAgree(6, Entable, Detable);
  }

  /** A record with the base64 block shape and alphabet. */
  predicate IsBase64(p: Params)
  {
    && Valid(p)
    && p.group == 3 && p.bitslen == 6 && p.egroup == 4 && p.mask == 63
    && |p.entable| == 64
    && (forall v :: 0 <= v < 64 ==> p.entable[v] == EncChar(v))
  }

  lemma {:induction false} Params64IsBase64()
    ensures IsBase64(Params64)
  {
    Params64Valid();
  }
}
