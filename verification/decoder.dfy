/** `baseN_decoding`, `_check_char`, `_decoding_group` and
    `baseN_decoding_length`. The decoding loop is `Scan`, one character at
    a time; `Values` is an independent reading of the same text (the
    alphabet positions of its symbol characters), and `Inv` ties the loop
    state to the bits of those positions. */
module Decoder {
  import opened Arith
  import opened Bits
  import opened BaseN

  // ---------------------------------------------------------------------
  // Characters

  /** `_check_char`'s three answers: 0, -1 and 1. */
  datatype CharKind = Skip | Invalid | Symbol

  /** CR, LF and '=' are skipped wherever they appear. */
  predicate IsSkip(c: byte)
  {
    c == CR || c == LF || c == Pad
  }

  /** `_check_char`. */
  function CheckChar(p: Params, c: byte): (k: CharKind)
    requires |p.detable| == 256
    ensures k == Skip <==> IsSkip(c)
  {
    if IsSkip(c) then Skip
    else if p.detable[c] == NotInAlphabet then Invalid
    else Symbol
  }

  /** A character of the alphabet has a position in `entable`, and
      `detable` holds that position. */
  lemma {:induction false} PositionOf(p: Params, c: byte)
    requires Valid(p)
    requires c in p.entable
    ensures p.detable[c] < Pow2(p.bitslen)
    ensures p.entable[p.detable[c]] == c
  {
    var v :| 0 <= v < |p.entable| && p.entable[v] == c;
    assert p.detable[p.entable[v]] == v;
  }

  /** With consistent tables `_check_char` accepts exactly the alphabet,
      and a symbol's value is its position in the alphabet. */
  lemma {:induction false} CheckCharAlphabet(p: Params, c: byte)
    requires Valid(p)
    ensures CheckChar(p, c) == Symbol <==> c in p.entable
    ensures CheckChar(p, c) == Invalid <==> !IsSkip(c) && c !in p.entable
    ensures CheckChar(p, c) == Symbol ==> p.entable[SymbolValue(p, c)] == c
  {
    if c in p.entable {
      PositionOf(p, c);
      Pow2Le(p.bitslen, 7);
      assert Pow2(7) == 128;
    }
  }

  /** `table[c] & mask`. */
  function SymbolValue(p: Params, c: byte): (v: nat)
    requires Valid(p)
    ensures v < Pow2(p.bitslen)
  {
    p.detable[c] % (p.mask + 1)
  }

  /** The reference reading: the alphabet positions of the symbol
      characters of s, in order, provided every other character is CR, LF
      or '='; None when some character is neither. */
  function Values(p: Params, s: seq<byte>): (r: Option<seq<nat>>)
    requires Valid(p)
    ensures r.Some? ==> |r.value| <= |s|
    ensures r.Some? ==> forall i :: 0 <= i < |r.value| ==> r.value[i] < Pow2(p.bitslen)
  {
    if s == [] then Some([])
    else
      var c := s[|s| - 1];
      match Values(p, s[..|s| - 1])
      case None => None
      case Some(vs) =>
        if IsSkip(c) then Some(vs)
        else if c in p.entable then
          PositionOf(p, c);
          Some(vs + [p.detable[c]])
        else None
  }

  // ---------------------------------------------------------------------
  // The decoding loop

  /** The loop's variables: the 64-bit window `t`, the count `k` of symbols
      in it, and the bytes written so far. */
  datatype State = State(acc: nat, k: nat, out: seq<byte>)

  /** `_decoding_group`: n bytes from the top of a window holding group
      bytes. */
  function DecodeGroup(p: Params, t: nat, n: nat): (bs: seq<byte>)
    requires n <= p.group
    ensures |bs| == n
  {
    seq(n, j requires 0 <= j < n => (t / Pow2(8 * (p.group - 1 - j))) % 256)
  }

  /** One symbol into the window, `t |= v << (bitslen*(egroup-1) -
      bitslen*k)`; the fields of distinct k do not overlap, so the `|` is
      a sum. A full window is flushed and cleared. */
  function Step(p: Params, st: State, v: nat): (r: State)
    requires Shape(p)
    requires st.k < p.egroup
    ensures r.k < p.egroup
  {
    var t := st.acc + Shl(v, Room(p, st.k + 1));
    if st.k + 1 == p.egroup then State(0, 0, st.out + DecodeGroup(p, t, p.group))
    else State(t, st.k + 1, st.out)
  }

  /** The loop of `baseN_decoding` after the characters of s: None once an
      invalid character has been met. */
  function Scan(p: Params, s: seq<byte>): (r: Option<State>)
    requires Valid(p)
    ensures r.Some? ==> r.value.k < p.egroup
  {
    if s == [] then
      ValidFacts(p);
      Some(State(0, 0, []))
    else
      match Scan(p, s[..|s| - 1])
      case None => None
      case Some(st) =>
        var c := s[|s| - 1];
        match CheckChar(p, c)
        case Skip => Some(st)
        case Invalid => None
        case Symbol => Some(Step(p, st, SymbolValue(p, c)))
  }

  /** `k*bitslen/8`: the bytes that a window of k symbols fills. */
  function TailLen(p: Params, k: nat): nat
  {
    k * p.bitslen / 8
  }

  /** A window of k < egroup symbols holds fewer than group bytes. */
  lemma {:induction false} TailBytes(p: Params, k: nat)
    requires Shape(p)
    requires k < p.egroup
    ensures TailLen(p, k) < p.group
  {
    MulMono(k + 1, p.egroup, p.bitslen);
    MulSucc(k, p.bitslen);
  }

  /** `baseN_decoding` as written: the last, partial window is written out
      only when its value is nonzero. */
  function Decoding(p: Params, data: seq<byte>): (r: Option<seq<byte>>)
    requires Valid(p)
  {
    if |data| == 0 then Some([])
    else
      match Scan(p, data)
      case None => None
      case Some(st) => Some(Finish(p, st))
  }

  /** The tail handling after the loop, as written: `if (k > 0 && t)`. */
  function Finish(p: Params, st: State): seq<byte>
    requires Shape(p)
    requires st.k < p.egroup
  {
    if st.k > 0 && st.acc != 0 then
      TailBytes(p, st.k);
      st.out + DecodeGroup(p, st.acc, TailLen(p, st.k))
    else st.out
  }

  /** `baseN_decoding` with the final flush guarded by `k > 0` alone: a
      partial window of zero symbols still yields its zero bytes. */
  function DecodingFlushed(p: Params, data: seq<byte>): (r: Option<seq<byte>>)
    requires Valid(p)
  {
    if |data| == 0 then Some([])
    else
      match Scan(p, data)
      case None => None
      case Some(st) => Some(FinishFlushed(p, st))
  }

  /** The corrected tail handling: `if (k > 0)`. */
  function FinishFlushed(p: Params, st: State): seq<byte>
    requires Shape(p)
    requires st.k < p.egroup
  {
    if st.k > 0 then
      TailBytes(p, st.k);
      st.out + DecodeGroup(p, st.acc, TailLen(p, st.k))
    else st.out
  }

  /** `baseN_decoding_length`: the buffer size `baseN_work` reserves. */
  function DecodingLength(p: Params, datalen: nat): (len: nat)
    requires Valid(p)
    ensures len == 0 <==> datalen == 0
  {
    ValidFacts(p);
    if datalen == 0 then 0
    else
      MulAtLeast(CeilDiv(datalen, p.egroup), p.group);
      CeilDiv(datalen, p.egroup) * p.group
  }

  // ---------------------------------------------------------------------
  // Invalid input

  /** Decoding fails exactly when some character is neither CR, LF, '='
      nor in the alphabet. */
  lemma {:induction false} ValuesFailIffInvalid(p: Params, s: seq<byte>)
    requires Valid(p)
    ensures Values(p, s).None? <==> exists i :: 0 <= i < |s| && CheckChar(p, s[i]) == Invalid
  {
    if s != [] {
      var s' := s[..|s| - 1];
      ValuesFailIffInvalid(p, s');
      CheckCharAlphabet(p, s[|s| - 1]);
      if Values(p, s').None? {
        var i :| 0 <= i < |s'| && CheckChar(p, s'[i]) == Invalid;
        assert s[i] == s'[i];
      } else if exists i :: 0 <= i < |s| && CheckChar(p, s[i]) == Invalid {
        var i :| 0 <= i < |s| && CheckChar(p, s[i]) == Invalid;
        if i < |s'| {
          assert s'[i] == s[i];
        }
      }
    }
  }

  // ---------------------------------------------------------------------
  // The loop against the reference reading

  /** After the symbol values H, the bytes written are the bits of H's
      complete blocks read eight at a time, and the window holds the bits
      of the remaining k values at its top. */
  predicate Inv(p: Params, st: State, H: seq<nat>)
  {
    st.k < p.egroup && st.k <= |H| && Split(p, st, H[..|H| - st.k], H[|H| - st.k..])
  }

  /** The state after complete blocks D followed by the window's symbols T. */
  predicate Split(p: Params, st: State, D: seq<nat>, T: seq<nat>)
  {
    && p.egroup > 0
    && |D| % p.egroup == 0
    && |T| == st.k
    && st.out == BitsBytes(SymBits(D, p.bitslen))
    && st.acc == FromBits(Window(p, T))
  }

  /** `Inv` from a split of the values. */
  lemma {:induction false} InvOf(p: Params, st: State, H: seq<nat>, D: seq<nat>, T: seq<nat>)
    requires st.k < p.egroup && D + T == H && Split(p, st, D, T)
    ensures Inv(p, st, H)
  {
    assert H[..|H| - st.k] == D && H[|H| - st.k..] == T;
  }

  /** The window count is the remainder of the values by egroup. */
  lemma {:induction false} InvRemainder(p: Params, st: State, H: seq<nat>)
    requires Inv(p, st, H)
    ensures st.k == |H| % p.egroup
  {
    var n := |H| - st.k;
    assert |H[..n]| == n;
    ModOfSum(n, p.egroup, st.k);
  }

  /** The 64-bit window's low `group` bytes holding the symbols T from the
      top down. */
  function Window(p: Params, T: seq<nat>): seq<bool>
  {
    PadRight(SymBits(T, p.bitslen), 8 * p.group)
  }

  /** At most egroup symbols fit the window, followed by zero bits. */
  lemma {:induction false} WindowFits(p: Params, T: seq<nat>)
    requires Shape(p)
    requires |T| <= p.egroup
    ensures |SymBits(T, p.bitslen)| + Room(p, |T|) == 8 * p.group
    ensures Window(p, T) == SymBits(T, p.bitslen) + Zeros(Room(p, |T|))
  {
    ValidFacts(p);
    assert p.bitslen * |T| + p.bitslen * (p.egroup - |T|) == p.bitslen * p.egroup;
  }

  /** `_decoding_group` reads bytes from the top of a window holding a bit
      string of group bytes. */
  lemma {:induction false} DecodeGroupBits(p: Params, Y: seq<bool>, n: nat)
    requires n <= p.group
    requires |Y| == 8 * p.group
    ensures DecodeGroup(p, FromBits(Y), n) == BitsBytes(Y)[..n]
  {
    forall j | 0 <= j < n
      ensures DecodeGroup(p, FromBits(Y), n)[j] == BitsBytes(Y)[j]
    {
      var s := 8 * (p.group - 1 - j);
      FieldIsSlice(Y, s, 8);
      assert Pow2(8) == 256;
      assert |Y| - s - 8 == 8 * j;
    }
  }

  /** The bits of complete blocks fill whole bytes. */
  lemma {:induction false} AlignedBits(p: Params, D: seq<nat>)
    requires Shape(p)
    requires |D| % p.egroup == 0
    ensures |SymBits(D, p.bitslen)| % 8 == 0
  {
    ValidFacts(p);
    BlocksFillBytes(|D|, p.egroup, p.bitslen, p.group);
  }

  /** The bits below the first n symbols of a block, `bitslen*(egroup-n)`;
      `Room(p, k + 1)` is the shift that places symbol k. */
  function Room(p: Params, n: nat): nat
    requires n <= p.egroup
  {
    p.bitslen * (p.egroup - n)
  }

  /** The window's value: the symbols' value shifted to the top. */
  lemma {:induction false} WindowValue(p: Params, T: seq<nat>)
    requires Shape(p)
    requires |T| <= p.egroup
    ensures FromBits(Window(p, T)) == Shl(FromBits(SymBits(T, p.bitslen)), Room(p, |T|))
  {
    WindowFits(p, T);
    ShiftedByZeros(SymBits(T, p.bitslen), Room(p, |T|));
  }

  /** One symbol fewer below leaves bitslen more bits of room. */
  lemma {:induction false} RoomStep(p: Params, n: nat)
    requires n < p.egroup
    ensures Pow2(Room(p, n)) == Pow2(p.bitslen) * Pow2(Room(p, n + 1))
  {
    var r := p.egroup - 1 - n;
    assert Room(p, n) == p.bitslen * (r + 1) && Room(p, n + 1) == p.bitslen * r;
    Pow2Mul(p.bitslen, r);
  }

  /** `t |= v << shift`: the window after one more symbol. */
  lemma {:induction false} StepAcc(p: Params, T: seq<nat>, v: nat)
    requires Shape(p)
    requires |T| < p.egroup
    requires v < Pow2(p.bitslen)
    ensures FromBits(Window(p, T)) + Shl(v, Room(p, |T| + 1)) == FromBits(Window(p, T + [v]))
  {
    var F, F' := FromBits(SymBits(T, p.bitslen)), FromBits(SymBits(T + [v], p.bitslen));
    var Pb, Ps := Pow2(p.bitslen), Pow2(Room(p, |T| + 1));
    WindowValue(p, T);
    WindowValue(p, T + [v]);
    RoomStep(p, |T|);
    SymBitsSnoc(T, v, p.bitslen);
    ShiftIn(F, F', v, Pb, Ps, Pow2(Room(p, |T|)), FromBits(Window(p, T)), FromBits(Window(p, T + [v])));
  }

  /** Or-ing a symbol below the window's top bits, in numbers. */
  lemma {:induction false} ShiftIn(F: int, F': int, v: int, Pb: int, Ps: int, P: int, W: int, W': int)
    requires P == Pb * Ps && W == F * P
    requires F' == F * Pb + v && W' == F' * Ps
    ensures W + v * Ps == W'
  {
  }

  /** A full window written out after complete blocks. */
  lemma {:induction false} FlushBytes(p: Params, D: seq<nat>, T: seq<nat>)
    requires Shape(p)
    requires |D| % p.egroup == 0
    requires |T| == p.egroup
    ensures BitsBytes(SymBits(D, p.bitslen)) + DecodeGroup(p, FromBits(Window(p, T)), p.group)
         == BitsBytes(SymBits(D + T, p.bitslen))
  {
    var b := p.bitslen;
    WindowFits(p, T);
    assert Window(p, T) == SymBits(T, b);
    DecodeGroupBits(p, SymBits(T, b), p.group);
    AlignedBits(p, D);
    BitsBytesAppend(SymBits(D, b), SymBits(T, b));
    SymBitsAppend(D, T, b);
  }

  /** A partial window of k symbols written out after complete blocks: the
      `k*bitslen/8` bytes its bits fill. */
  lemma {:induction false} PartialBytes(p: Params, D: seq<nat>, T: seq<nat>)
    requires Shape(p)
    requires |D| % p.egroup == 0
    requires 0 < |T| < p.egroup
    ensures TailLen(p, |T|) <= p.group
    ensures BitsBytes(SymBits(D, p.bitslen)) + DecodeGroup(p, FromBits(Window(p, T)), TailLen(p, |T|))
         == BitsBytes(SymBits(D + T, p.bitslen))
  {
    var b := p.bitslen;
    var S, W := SymBits(T, b), Window(p, T);
    var n := TailLen(p, |T|);
    TailBytes(p, |T|);
    WindowFits(p, T);
    assert n == |S| / 8;
    DecodeGroupBits(p, W, n);
    BitsBytesPrefix(S, Zeros(Room(p, |T|)));
    var front := BitsBytes(SymBits(D, b));
    assert DecodeGroup(p, FromBits(W), n) == BitsBytes(S);
    AlignedBits(p, D);
    BitsBytesAppend(SymBits(D, b), S);
    SymBitsAppend(D, T, b);
    assert front + BitsBytes(S) == BitsBytes(SymBits(D + T, b));
  }

  /** `Step`'s two outcomes. */
  lemma {:induction false} StepCases(p: Params, st: State, v: nat)
    requires Shape(p)
    requires st.k < p.egroup
    ensures var t := st.acc + Shl(v, Room(p, st.k + 1));
      Step(p, st, v) == if st.k + 1 == p.egroup then State(0, 0, st.out + DecodeGroup(p, t, p.group))
                        else State(t, st.k + 1, st.out)
  {
  }

  /** `Step` while the window is not full: one more symbol in it. */
  lemma {:induction false} StepPartial(p: Params, st: State, D: seq<nat>, T: seq<nat>, v: nat)
    requires Shape(p) && Split(p, st, D, T)
    requires v < Pow2(p.bitslen)
    requires st.k + 1 < p.egroup
    ensures Split(p, Step(p, st, v), D, T + [v])
  {
    var t := st.acc + Shl(v, Room(p, st.k + 1));
    StepAcc(p, T, v);
    StepCases(p, st, v);
  }

  /** `Step` filling the window: the block is written out and the window
      cleared. */
  lemma {:induction false} StepFlush(p: Params, st: State, D: seq<nat>, T: seq<nat>, v: nat)
    requires Shape(p) && Split(p, st, D, T)
    requires v < Pow2(p.bitslen)
    requires st.k + 1 == p.egroup
    ensures Split(p, Step(p, st, v), D + (T + [v]), [])
  {
    var out := st.out + DecodeGroup(p, st.acc + Shl(v, Room(p, st.k + 1)), p.group);
    assert out == BitsBytes(SymBits(D + (T + [v]), p.bitslen)) by {
      FlushOut(p, st, D, T, v);
    }
    assert |D + (T + [v])| % p.egroup == 0 by {
      ModAddDivisor(|D|, p.egroup);
    }
    assert Step(p, st, v) == State(0, 0, out) by {
      StepCases(p, st, v);
    }
    FlushedSplit(p, out, D + (T + [v]));
  }

  /** The block a flush writes out extends the bytes written so far by the
      block's symbols. */
  lemma {:induction false} FlushOut(p: Params, st: State, D: seq<nat>, T: seq<nat>, v: nat)
    requires Shape(p) && Split(p, st, D, T)
    requires v < Pow2(p.bitslen)
    requires st.k + 1 == p.egroup
    ensures st.out + DecodeGroup(p, st.acc + Shl(v, Room(p, st.k + 1)), p.group)
         == BitsBytes(SymBits(D + (T + [v]), p.bitslen))
  {
    var T' := T + [v];
    assert st.acc + Shl(v, Room(p, st.k + 1)) == FromBits(Window(p, T')) by {
      StepAcc(p, T, v);
    }
    assert |T'| == p.egroup;
    FlushBytes(p, D, T');
  }

  /** Right after a flush: all symbols so far are written out and the
      window is empty. */
  lemma {:induction false} FlushedSplit(p: Params, out: seq<byte>, D: seq<nat>)
    requires Shape(p)
    requires |D| % p.egroup == 0
    requires out == BitsBytes(SymBits(D, p.bitslen))
    ensures Split(p, State(0, 0, out), D, [])
  {
    EmptyWindow(p);
  }

  /** An empty window is zero. */
  lemma {:induction false} EmptyWindow(p: Params)
    ensures FromBits(Window(p, [])) == 0
  {
    assert SymBits([], p.bitslen) == [];
    assert Window(p, []) == Zeros(8 * p.group);
    FromBitsZeros(8 * p.group);
  }

  /** `Step` keeps `Inv`. */
  lemma {:induction false} StepInv(p: Params, st: State, H: seq<nat>, v: nat)
    requires Shape(p) && Inv(p, st, H)
    requires v < Pow2(p.bitslen)
    ensures Inv(p, Step(p, st, v), H + [v])
  {
    var m := |H| - st.k;
    var D, T := H[..m], H[m..];
    SnocSlices(H, m, v);
    if st.k + 1 < p.egroup {
      StepPartial(p, st, D, T, v);
      InvOf(p, Step(p, st, v), H + [v], D, T + [v]);
    } else {
      StepFlush(p, st, D, T, v);
      assert D + (T + [v]) + [] == H + [v];
      InvOf(p, Step(p, st, v), H + [v], D + (T + [v]), []);
    }
  }

  /** `Inv` holds before the loop. */
  lemma {:induction false} InvStart(p: Params)
    requires Shape(p)
    ensures Inv(p, State(0, 0, []), [])
  {
    var E: seq<nat> := [];
    assert SymBits(E, p.bitslen) == [];
    assert BitsBytes([]) == [];
    EmptyWindow(p);
    ShapeBounds(p);
    InvOf(p, State(0, 0, []), E, E, E);
  }

  /** The loop succeeds exactly when the reference reading does, and its
      state then satisfies `Inv` for the values read. */
  lemma {:induction false} ScanValues(p: Params, s: seq<byte>)
    requires Valid(p)
    ensures Scan(p, s).Some? <==> Values(p, s).Some?
    ensures Scan(p, s).Some? ==> Inv(p, Scan(p, s).value, Values(p, s).value)
  {
    if s == [] {
      assert Scan(p, s) == Some(State(0, 0, []));
      InvStart(p);
    } else {
      var s' := s[..|s| - 1];
      var c := s[|s| - 1];
      ScanValues(p, s');
      CheckCharAlphabet(p, c);
      match Scan(p, s')
      case None =>
        assert Scan(p, s) == None && Values(p, s) == None;
      case Some(st) =>
        var vs := Values(p, s').value;
        if IsSkip(c) {
          assert Scan(p, s) == Some(st) && Values(p, s) == Some(vs);
        } else if c in p.entable {
          PositionOf(p, c);
          ValidFacts(p);
          var v := p.detable[c];
          assert SymbolValue(p, c) == v;
          assert Scan(p, s) == Some(Step(p, st, v));
          assert Values(p, s) == Some(vs + [v]);
          StepInv(p, st, vs, v);
        } else {
          assert Scan(p, s) == None && Values(p, s) == None;
        }
    }
  }

  // ---------------------------------------------------------------------
  // What decoding returns

  /** Symbols of the complete blocks among n symbols. */
  function WholeGroups(p: Params, n: nat): (m: nat)
    requires Shape(p)
    ensures m <= n && n - m < p.egroup
    ensures m % p.egroup == 0
  {
    ShapeBounds(p);
    ModDrop(n, p.egroup);
    n - n % p.egroup
  }

  /** The corrected tail handling after the loop yields the bytes of all
      the symbols' bits. */
  lemma {:induction false} FinishFlushedBytes(p: Params, st: State, H: seq<nat>)
    requires Shape(p) && Inv(p, st, H)
    ensures FinishFlushed(p, st) == BitsBytes(SymBits(H, p.bitslen))
  {
    var m := |H| - st.k;
    var D, T := H[..m], H[m..];
    if st.k > 0 {
      TailBytes(p, st.k);
      assert FinishFlushed(p, st) == st.out + DecodeGroup(p, FromBits(Window(p, T)), TailLen(p, |T|));
      PartialBytes(p, D, T);
      Halves(H, m);
    } else {
      assert D == H;
    }
  }

  /** The tail handling as written drops the window exactly when its
      symbols are all zero. */
  lemma {:induction false} FinishBytes(p: Params, st: State, H: seq<nat>)
    requires Shape(p) && Inv(p, st, H)
    requires forall i :: 0 <= i < |H| ==> H[i] < Pow2(p.bitslen)
    ensures var m := WholeGroups(p, |H|);
      Finish(p, st) == if m < |H| && AllZero(H[m..]) then BitsBytes(SymBits(H[..m], p.bitslen))
                       else BitsBytes(SymBits(H, p.bitslen))
  {
    var m := |H| - st.k;
    InvRemainder(p, st, H);
    assert WholeGroups(p, |H|) == m;
    FinishFlushedBytes(p, st, H);
    var T := H[m..];
    forall i | 0 <= i < |T|
      ensures T[i] < Pow2(p.bitslen)
    {
      assert T[i] == H[m + i];
    }
    WindowZero(p, T);
  }

  /** The window is zero exactly when the symbols in it are. */
  lemma {:induction false} WindowZero(p: Params, T: seq<nat>)
    requires Shape(p)
    requires |T| <= p.egroup
    requires forall i :: 0 <= i < |T| ==> T[i] < Pow2(p.bitslen)
    ensures FromBits(Window(p, T)) == 0 <==> AllZero(T)
  {
    WindowValue(p, T);
    SymBitsZero(T, p.bitslen);
    ZeroProduct(FromBits(SymBits(T, p.bitslen)), Pow2(Room(p, |T|)));
  }

  /** What `baseN_decoding` returns, stated against the reference reading:
      the symbols' bits read eight at a time, except that a partial last
      block whose symbols are all zero is dropped. */
  lemma {:induction false} DecodingIsSymbolBits(p: Params, data: seq<byte>)
    requires Valid(p)
    ensures Decoding(p, data).None? <==> Values(p, data).None?
    ensures Values(p, data).Some? ==>
      var vs := Values(p, data).value;
      var m := WholeGroups(p, |vs|);
      Decoding(p, data) == Some(
        if m < |vs| && AllZero(vs[m..]) then BitsBytes(SymBits(vs[..m], p.bitslen))
        else BitsBytes(SymBits(vs, p.bitslen)))
  {
    ScanValues(p, data);
    if |data| == 0 {
      assert Values(p, data) == Some([]);
      assert SymBits([], p.bitslen) == [];
    } else if Scan(p, data).Some? {
      FinishBytes(p, Scan(p, data).value, Values(p, data).value);
    }
  }

  /** The corrected decoder returns the symbols' bits read eight at a time,
      always. */
  lemma {:induction false} DecodingFlushedIsSymbolBits(p: Params, data: seq<byte>)
    requires Valid(p)
    ensures DecodingFlushed(p, data).None? <==> Values(p, data).None?
    ensures Values(p, data).Some? ==>
      DecodingFlushed(p, data) == Some(BitsBytes(SymBits(Values(p, data).value, p.bitslen)))
  {
    ScanValues(p, data);
    if |data| == 0 {
      assert Values(p, data) == Some([]);
      assert SymBits([], p.bitslen) == [];
    } else if Scan(p, data).Some? {
      FinishFlushedBytes(p, Scan(p, data).value, Values(p, data).value);
    }
  }

  // ---------------------------------------------------------------------
  // Output size

  /** Bytes the symbol bits of n values fill are within the estimate. */
  lemma {:induction false} SymbolBytesWithin(p: Params, n: nat, datalen: nat)
    requires Shape(p)
    requires n <= datalen
    ensures (p.bitslen * n) / 8 <= (if datalen == 0 then 0 else CeilDiv(datalen, p.egroup) * p.group)
  {
    ValidFacts(p);
    if datalen > 0 {
      BitsWithinBlocks(n, datalen, p.egroup, p.bitslen, p.group);
    } else {
      assert p.bitslen * n == 0;
    }
  }

  /** The buffer `baseN_work` reserves holds what `baseN_decoding` writes. */
  lemma {:induction false} DecodingWithinEstimate(p: Params, data: seq<byte>)
    requires Valid(p)
    requires Decoding(p, data).Some? || DecodingFlushed(p, data).Some?
    ensures Decoding(p, data).Some? && DecodingFlushed(p, data).Some?
    ensures |Decoding(p, data).value| <= |DecodingFlushed(p, data).value| <= DecodingLength(p, |data|)
  {
    DecodingIsSymbolBits(p, data);
    DecodingFlushedIsSymbolBits(p, data);
    var vs := Values(p, data).value;
    var b := p.bitslen;
    var m := WholeGroups(p, |vs|);
    assert |vs[..m]| == m;
    BytesMono(m, |vs|, b);
    SymbolBytesWithin(p, |vs|, |data|);
  }

  /** Two records that differ at most in the two flags. */
  predicate SameTables(p: Params, q: Params)
  {
    q == p.(padding := q.padding, chunkled := q.chunkled)
  }

  /** `baseN_decoding` reads neither flag: pads and line breaks are
      skipped whatever `padding` and `chunkled` say. */
  lemma {:induction false} DecodingIgnoresFlags(p: Params, q: Params, data: seq<byte>)
    requires Valid(p) && Valid(q) && SameTables(p, q)
    ensures Decoding(q, data) == Decoding(p, data)
    ensures DecodingFlushed(q, data) == DecodingFlushed(p, data)
  {
    ScanIgnoresFlags(p, q, data);
  }

  lemma {:induction false} ScanIgnoresFlags(p: Params, q: Params, s: seq<byte>)
    requires Valid(p) && Valid(q) && SameTables(p, q)
    ensures Scan(q, s) == Scan(p, s)
  {
    if s != [] {
      var s', c := s[..|s| - 1], s[|s| - 1];
      ScanIgnoresFlags(p, q, s');
      assert CheckChar(q, c) == CheckChar(p, c);
      if Scan(p, s').Some? && CheckChar(p, c) == Symbol {
        var st := Scan(p, s').value;
        assert SymbolValue(q, c) == SymbolValue(p, c);
        StepIgnoresFlags(p, q, st, SymbolValue(p, c));
      }
    }
  }

  lemma {:induction false} StepIgnoresFlags(p: Params, q: Params, st: State, v: nat)
    requires Shape(p) && Shape(q) && SameTables(p, q)
    requires st.k < p.egroup
    ensures Step(q, st, v) == Step(p, st, v)
  {
    assert Room(q, st.k + 1) == Room(p, st.k + 1);
    var t := st.acc + Shl(v, Room(p, st.k + 1));
    assert DecodeGroup(q, t, p.group) == DecodeGroup(p, t, p.group);
  }
}
