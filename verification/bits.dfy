/** Bytes and big-endian bit strings. A number's shifted-and-masked field is
    a slice of its bit string; every packing proof of the codec reduces to
    that one fact plus concatenation of bit strings. */
module Bits {
  import opened Arith

  type byte = x: int | 0 <= x < 256

  function Bit(b: bool): nat
  {
    if b then 1 else 0
  }

  /** The value of a bit string, most significant bit first. */
  function FromBits(X: seq<bool>): (x: nat)
    ensures x < Pow2(|X|)
    decreases |X|
  {
    if X == [] then 0 else 2 * FromBits(X[..|X| - 1]) + Bit(X[|X| - 1])
  }

  /** The low w bits of x, most significant first. */
  function ToBits(x: nat, w: nat): (X: seq<bool>)
    ensures |X| == w
  {
    if w == 0 then [] else ToBits(x / 2, w - 1) + [x % 2 == 1]
  }

  function Zeros(n: nat): seq<bool>
  {
    seq(n, i => false)
  }

  /** `x << n` on unbounded naturals. */
  function Shl(x: nat, n: nat): nat
  {
    x * Pow2(n)
  }

  /** X followed by zero bits up to length n. */
  function PadRight(X: seq<bool>, n: nat): (Y: seq<bool>)
    ensures |X| <= n ==> |Y| == n
  {
    if |X| < n then X + Zeros(n - |X|) else X
  }

  lemma {:induction false} FromBitsAppend(A: seq<bool>, B: seq<bool>)
    ensures FromBits(A + B) == FromBits(A) * Pow2(|B|) + FromBits(B)
    decreases |B|
  {
    if B == [] {
      assert A + B == A;
    } else {
      var B' := B[..|B| - 1];
      assert (A + B)[..|A + B| - 1] == A + B';
      assert (A + B)[|A + B| - 1] == B[|B| - 1];
      FromBitsAppend(A, B');
      assert Pow2(|B|) == 2 * Pow2(|B'|);
      assert FromBits(A + B) == 2 * FromBits(A + B') + Bit(B[|B| - 1]);
      assert FromBits(B) == 2 * FromBits(B') + Bit(B[|B| - 1]);
      Horner(FromBits(A), Pow2(|B'|), FromBits(B'), Bit(B[|B| - 1]));
    }
  }

  lemma {:induction false} Horner(a: int, p: int, f: int, bit: int)
    ensures 2 * (a * p + f) + bit == a * (2 * p) + (2 * f + bit)
  {
  }

  lemma {:induction false} FromBitsZeros(n: nat)
    ensures FromBits(Zeros(n)) == 0
  {
    if n > 0 {
      assert Zeros(n)[..n - 1] == Zeros(n - 1);
      FromBitsZeros(n - 1);
    }
  }

  /** Appending n zero bits multiplies the value by 2^n. */
  lemma {:induction false} ShiftedByZeros(A: seq<bool>, n: nat)
    ensures FromBits(A + Zeros(n)) == FromBits(A) * Pow2(n)
  {
    FromBitsAppend(A, Zeros(n));
    FromBitsZeros(n);
  }

  lemma {:induction false} FromToBits(x: nat, w: nat)
    requires x < Pow2(w)
    ensures FromBits(ToBits(x, w)) == x
  {
    if w > 0 {
      var X := ToBits(x, w);
      assert x / 2 < Pow2(w - 1);
      FromToBits(x / 2, w - 1);
      assert X[..w - 1] == ToBits(x / 2, w - 1);
      assert Bit(X[w - 1]) == x % 2;
      assert FromBits(X) == 2 * FromBits(X[..w - 1]) + Bit(X[w - 1]);
    }
  }

  lemma {:induction false} ToFromBits(X: seq<bool>)
    ensures ToBits(FromBits(X), |X|) == X
  {
    if X != [] {
      var X' := X[..|X| - 1];
      ToFromBits(X');
      var x := FromBits(X);
      DivModUnique(x, 2, FromBits(X'), Bit(X[|X| - 1]));
      assert X == X' + [X[|X| - 1]];
    }
  }

  /** `(x >> s) & (2^w - 1)` is the w-bit slice that ends s bits above the
      least significant end of x's bit string. */
  lemma {:induction false} FieldIsSlice(X: seq<bool>, s: nat, w: nat)
    requires s + w <= |X|
    ensures (FromBits(X) / Pow2(s)) % Pow2(w) == FromBits(X[|X| - s - w .. |X| - s])
  {
    var A := X[..|X| - s - w];
    var B := X[|X| - s - w .. |X| - s];
    var C := X[|X| - s..];
    var AB := X[..|X| - s];
    assert AB == A + B;
    assert X == AB + C;
    FromBitsAppend(AB, C);
    FromBitsAppend(A, B);
    var a, b, c := FromBits(A), FromBits(B), FromBits(C);
    assert FromBits(AB) == a * Pow2(w) + b;
    assert FromBits(X) == (a * Pow2(w) + b) * Pow2(s) + c;
    FieldOfSum(a, b, c, Pow2(w), Pow2(s));
  }

  lemma {:induction false} FieldOfSum(a: nat, b: nat, c: nat, P: nat, Q: nat)
    requires b < P && c < Q
    ensures (((a * P + b) * Q + c) / Q) % P == b
  {
    DivModUnique((a * P + b) * Q + c, Q, a * P + b, c);
    DivModUnique(a * P + b, P, a, b);
  }

  /** Horner form of the big-endian value Σ bs[i]·256^(|bs|-1-i). */
  function BigEndian(bs: seq<byte>): nat
  {
    if bs == [] then 0 else BigEndian(bs[..|bs| - 1]) * 256 + bs[|bs| - 1]
  }

  /** The bits of a byte sequence, eight per byte, first byte first. */
  function BytesBits(bs: seq<byte>): (X: seq<bool>)
    ensures |X| == 8 * |bs|
  {
    if bs == [] then [] else BytesBits(bs[..|bs| - 1]) + ToBits(bs[|bs| - 1], 8)
  }

  lemma {:induction false} BigEndianBits(bs: seq<byte>)
    ensures BigEndian(bs) == FromBits(BytesBits(bs))
  {
    if bs != [] {
      var init := bs[..|bs| - 1];
      BigEndianBits(init);
      assert Pow2(8) == 256;
      FromToBits(bs[|bs| - 1], 8);
      FromBitsAppend(BytesBits(init), ToBits(bs[|bs| - 1], 8));
    }
  }

  lemma {:induction false} BytesBitsByte(bs: seq<byte>, j: nat)
    requires j < |bs|
    ensures FromBits(BytesBits(bs)[8 * j .. 8 * j + 8]) == bs[j]
  {
    var init := bs[..|bs| - 1];
    var X, Y := BytesBits(init), ToBits(bs[|bs| - 1], 8);
    assert BytesBits(bs) == X + Y;
    if j == |bs| - 1 {
      AppendSlices(X, Y, 8 * j, 8 * j + 8);
      assert Pow2(8) == 256;
      FromToBits(bs[j], 8);
    } else {
      AppendSlices(X, Y, 8 * j, 8 * j + 8);
      assert init[j] == bs[j];
      BytesBitsByte(init, j);
    }
  }

  lemma {:induction false} Assoc<T>(A: seq<T>, B: seq<T>, C: seq<T>)
    ensures (A + B) + C == A + (B + C)
  {
  }

  /** A common suffix cancels. */
  lemma {:induction false} CancelRight<T>(A: seq<T>, D: seq<T>, C: seq<T>)
    requires A + C == D + C
    ensures A == D
  {
    assert |A| == |D|;
    assert A == (A + C)[..|A|];
    assert D == (D + C)[..|D|];
  }

  /** A slice of A + B that lies in A, or is all of B. */
  lemma {:induction false} AppendSlices<T>(A: seq<T>, B: seq<T>, i: nat, j: nat)
    requires i <= j <= |A + B|
    ensures j <= |A| ==> (A + B)[i .. j] == A[i .. j]
    ensures i == |A| && j == |A + B| ==> (A + B)[i .. j] == B
  {
  }

  lemma {:induction false} BigEndianZero(bs: seq<byte>)
    ensures BigEndian(bs) == 0 <==> forall i :: 0 <= i < |bs| ==> bs[i] == 0
  {
    if bs != [] {
      var init := bs[..|bs| - 1];
      BigEndianZero(init);
      assert forall i :: 0 <= i < |init| ==> init[i] == bs[i];
    }
  }

  /** The 64-bit window of `_encoding_group`: the block above a zero byte. */
  lemma {:induction false} BlockAboveZeroByte(bs: seq<byte>)
    ensures |BytesBits(bs) + Zeros(8)| == (|bs| + 1) * 8
    ensures FromBits(BytesBits(bs) + Zeros(8)) == BigEndian(bs) * 256
  {
    BigEndianBits(bs);
    ShiftedByZeros(BytesBits(bs), 8);
    assert Pow2(8) == 256;
  }

  /** Symbol values laid side by side, w bits each, first value first. */
  function SymBits(vs: seq<nat>, w: nat): (X: seq<bool>)
    ensures |X| == w * |vs|
  {
    if vs == [] then [] else ToBits(vs[0], w) + SymBits(vs[1..], w)
  }

  lemma {:induction false} SliceSplit<T>(X: seq<T>, i: nat, j: nat, k: nat)
    requires i <= j <= k <= |X|
    ensures X[i .. k] == X[i .. j] + X[j .. k]
  {
  }

  /** Cutting H + [v] at m <= |H|. */
  lemma {:induction false} SnocSlices<T>(H: seq<T>, m: nat, v: T)
    requires m <= |H|
    ensures (H + [v])[..m] == H[..m]
    ensures (H + [v])[m..] == H[m..] + [v]
    ensures H[..m] + (H[m..] + [v]) == H + [v]
  {
  }

  /** A prefix of A followed by zeros, at least as long as A. */
  lemma {:induction false} ZerosPrefix(A: seq<bool>, n: nat, c: nat)
    requires |A| <= c <= |A| + n
    ensures (A + Zeros(n))[0 .. c] == A + Zeros(c - |A|)
  {
  }

  lemma {:induction false} Halves<T>(H: seq<T>, m: nat)
    requires m <= |H|
    ensures H[..m] + H[m..] == H
  {
  }

  lemma {:induction false} BytesBitsAppend(a: seq<byte>, b: seq<byte>)
    ensures BytesBits(a + b) == BytesBits(a) + BytesBits(b)
    decreases |b|
  {
    if b == [] {
      assert a + b == a;
    } else {
      var b' := b[..|b| - 1];
      assert (a + b)[..|a + b| - 1] == a + b';
      assert (a + b)[|a + b| - 1] == b[|b| - 1];
      BytesBitsAppend(a, b');
    }
  }

  lemma {:induction false} SymBitsAppend(u: seq<nat>, v: seq<nat>, w: nat)
    ensures SymBits(u + v, w) == SymBits(u, w) + SymBits(v, w)
    decreases |u|
  {
    if u == [] {
      assert u + v == v;
    } else {
      assert (u + v)[0] == u[0];
      assert (u + v)[1..] == u[1..] + v;
      SymBitsAppend(u[1..], v, w);
    }
  }

  lemma {:induction false} SymBitsOne(v: nat, w: nat)
    ensures SymBits([v], w) == ToBits(v, w)
  {
    assert [v][1..] == [];
  }

  predicate AllZero(vs: seq<nat>)
  {
    forall i :: 0 <= i < |vs| ==> vs[i] == 0
  }

  lemma {:induction false} AllZeroCons(vs: seq<nat>)
    requires vs != []
    ensures AllZero(vs) <==> vs[0] == 0 && AllZero(vs[1..])
  {
    assert forall i :: 0 <= i < |vs[1..]| ==> vs[1..][i] == vs[i + 1];
  }

  /** The bit string of some symbol values is zero exactly when every
      value is. */
  lemma {:induction false} SymBitsZero(vs: seq<nat>, w: nat)
    requires forall i :: 0 <= i < |vs| ==> vs[i] < Pow2(w)
    ensures FromBits(SymBits(vs, w)) == 0 <==> AllZero(vs)
  {
    if vs != [] {
      var rest := vs[1..];
      var R := SymBits(rest, w);
      assert forall i :: 0 <= i < |rest| ==> rest[i] < Pow2(w) by {
        assert forall i :: 0 <= i < |rest| ==> rest[i] == vs[i + 1];
      }
      SymBitsZero(rest, w);
      assert FromBits(SymBits(vs, w)) == vs[0] * Pow2(|R|) + FromBits(R) by {
        FromBitsAppend(ToBits(vs[0], w), R);
        FromToBits(vs[0], w);
      }
      SumZero(vs[0], Pow2(|R|), FromBits(R));
      AllZeroCons(vs);
    }
  }

  /** The byte whose bits, most significant first, are X. */
  function ByteOf(X: seq<bool>): (c: byte)
    requires |X| == 8
    ensures c == FromBits(X)
  {
    assert Pow2(8) == 256;
    FromBits(X)
  }

  /** A bit string read eight bits at a time; a final partial byte is
      dropped. */
  function BitsBytes(X: seq<bool>): (bs: seq<byte>)
    ensures |bs| == |X| / 8
  {
    seq(|X| / 8, j requires 0 <= j < |X| / 8 => ByteOf(X[8 * j .. 8 * j + 8]))
  }

  lemma {:induction false} BitsBytesAppend(A: seq<bool>, B: seq<bool>)
    requires |A| % 8 == 0
    ensures BitsBytes(A + B) == BitsBytes(A) + BitsBytes(B)
  {
    var n := |A| / 8;
    var L, R := BitsBytes(A + B), BitsBytes(A) + BitsBytes(B);
    assert |L| == |R|;
    forall j | 0 <= j < |L|
      ensures L[j] == R[j]
    {
      if j < n {
        assert (A + B)[8 * j .. 8 * j + 8] == A[8 * j .. 8 * j + 8];
      } else {
        assert (A + B)[8 * j .. 8 * j + 8] == B[8 * (j - n) .. 8 * (j - n) + 8];
      }
    }
  }

  /** Bits appended after A do not change the bytes read from A. */
  lemma {:induction false} BitsBytesPrefix(A: seq<bool>, B: seq<bool>)
    ensures |A| / 8 <= |BitsBytes(A + B)|
    ensures BitsBytes(A + B)[..|A| / 8] == BitsBytes(A)
  {
    var L := BitsBytes(A + B)[..|A| / 8];
    forall j | 0 <= j < |A| / 8
      ensures L[j] == BitsBytes(A)[j]
    {
      assert (A + B)[8 * j .. 8 * j + 8] == A[8 * j .. 8 * j + 8];
    }
  }

  /** Reading the bits of a byte string back gives the bytes, whatever
      fewer than eight zero bits follow. */
  lemma {:induction false} BitsBytesOfBytes(bs: seq<byte>, f: nat)
    requires f < 8
    ensures BitsBytes(BytesBits(bs) + Zeros(f)) == bs
  {
    var X := BytesBits(bs) + Zeros(f);
    DivModUnique(|X|, 8, |bs|, f);
    var R := BitsBytes(X);
    forall j | 0 <= j < |bs|
      ensures R[j] == bs[j]
    {
      assert X[8 * j .. 8 * j + 8] == BytesBits(bs)[8 * j .. 8 * j + 8];
      BytesBitsByte(bs, j);
    }
  }

  /** One more symbol at the end shifts the value up by its width. */
  lemma {:induction false} SymBitsSnoc(T: seq<nat>, v: nat, w: nat)
    requires v < Pow2(w)
    ensures FromBits(SymBits(T + [v], w)) == FromBits(SymBits(T, w)) * Pow2(w) + v
  {
    SymBitsAppend(T, [v], w);
    SymBitsOne(v, w);
    FromBitsAppend(SymBits(T, w), ToBits(v, w));
    FromToBits(v, w);
  }
}
