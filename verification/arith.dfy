/** Natural-number helpers: powers of two, ceiling division, and the few
    facts about division that the bit-packing proofs rely on. */
module Arith {

  /** 2^n, the value of `1 << n`. */
  function Pow2(n: nat): (r: nat)
    ensures r >= 1
  {
    if n == 0 then 1 else 2 * Pow2(n - 1)
  }

  /** Integer replacement for `ceil((double)a / d)`. */
  function CeilDiv(a: nat, d: nat): (q: nat)
    requires d > 0
    ensures q * d >= a
    ensures q > 0 ==> (q - 1) * d < a
  {
    (a + d - 1) / d
  }

  lemma {:induction false} Pow2Add(a: nat, c: nat)
    ensures Pow2(a + c) == Pow2(a) * Pow2(c)
  {
    if a > 0 {
      Pow2Add(a - 1, c);
      assert Pow2(a + c) == 2 * Pow2(a - 1 + c);
    }
  }

  /** Quotient and remainder are determined by the division equation. */
  lemma {:induction false} DivModUnique(x: int, d: int, q: int, r: int)
    requires d > 0 && 0 <= r < d && x == q * d + r
    ensures x / d == q && x % d == r
  {
    var q', r' := x / d, x % d;
    assert x == q' * d + r';
    assert (q - q') * d == r' - r;
    if q > q' {
      MulAtLeast(q - q', d);
    } else if q < q' {
      MulAtLeast(q' - q, d);
    }
  }

  lemma {:induction false} MulMono(a: int, c: int, d: int)
    requires a <= c && d >= 0
    ensures a * d <= c * d
  {
    assert c * d - a * d == (c - a) * d;
  }

  lemma {:induction false} MulSucc(a: int, d: int)
    ensures (a + 1) * d == a * d + d
  {
  }

  lemma {:induction false} MulSuccRight(a: int, d: int)
    ensures d * (a + 1) == d * a + d
  {
  }

  lemma {:induction false} MulAtLeast(a: int, d: int)
    requires a >= 1 && d > 0
    ensures a * d >= d
  {
  }

  /** The unique q with q * d <= a < (q + 1) * d is the ceiling quotient of
      any a' with (q - 1) * d < a' <= q * d. */
  lemma {:induction false} CeilDivOf(a: nat, d: nat, q: nat)
    requires d > 0 && q * d >= a && (q == 0 || (q - 1) * d < a)
    ensures CeilDiv(a, d) == q
  {
    if q == 0 {
      DivModUnique(a + d - 1, d, 0, a + d - 1);
    } else {
      DivModUnique(a + d - 1, d, q, a + d - 1 - q * d);
    }
  }

  /** Removing one divisor from the dividend lowers the quotient by one. */
  lemma {:induction false} DivSub(x: nat, d: nat)
    requires d > 0 && x >= d
    ensures (x - d) / d == x / d - 1 && (x - d) % d == x % d
  {
    DivModUnique(x - d, d, x / d - 1, x % d);
  }

  /** A common factor of dividend and divisor cancels. */
  lemma {:induction false} DivCancel(x: nat, d: nat, c: nat)
    requires d > 0 && c > 0
    ensures (x * c) / (d * c) == x / d
  {
    var q, r := x / d, x % d;
    assert x * c == q * (d * c) + r * c;
    MulMono(r, d - 1, c);
    assert (d - 1) * c == d * c - c;
    DivModUnique(x * c, d * c, q, r * c);
  }

  lemma {:induction false} Pow2Le(a: nat, c: nat)
    requires a <= c
    ensures Pow2(a) <= Pow2(c)
  {
    Pow2Add(a, c - a);
    MulMono(1, Pow2(c - a), Pow2(a));
  }

  lemma {:induction false} CeilDivMono(a: nat, c: nat, d: nat)
    requires a <= c && d > 0
    ensures CeilDiv(a, d) <= CeilDiv(c, d)
  {
    var qa, qc := CeilDiv(a, d), CeilDiv(c, d);
    if qa > qc {
      MulMono(qc, qa - 1, d);
      assert false;
    }
  }

  lemma {:induction false} Pow2Mul(b: nat, r: nat)
    ensures Pow2(b * (r + 1)) == Pow2(b) * Pow2(b * r)
  {
    MulSuccRight(r, b);
    Pow2Add(b, b * r);
  }

  /** A nonempty count starts at least one group. */
  lemma {:induction false} CeilDivPos(a: nat, d: nat)
    requires a > 0 && d > 0
    ensures CeilDiv(a, d) >= 1
  {
    ZeroProduct(CeilDiv(a, d), d);
  }

  lemma {:induction false} ZeroProduct(a: nat, c: nat)
    requires c >= 1
    ensures a * c == 0 <==> a == 0
  {
    if a > 0 {
      MulAtLeast(a, c);
    }
  }

  /** A sum of a nonzero multiple and a nat vanishes only when both parts do. */
  lemma {:induction false} SumZero(a: nat, c: nat, r: nat)
    requires c >= 1
    ensures a * c + r == 0 <==> a == 0 && r == 0
  {
    if a > 0 {
      MulAtLeast(a, c);
    }
  }

  /** A multiple plus k < d leaves remainder k. */
  lemma {:induction false} ModOfSum(n: nat, d: nat, k: nat)
    requires d > 0 && n % d == 0 && k < d
    ensures (n + k) % d == k
  {
    var q := n / d;
    assert n == q * d;
    DivModUnique(n + k, d, q, k);
  }

  /** A multiple plus the divisor is a multiple. */
  lemma {:induction false} ModAddDivisor(n: nat, d: nat)
    requires d > 0 && n % d == 0
    ensures (n + d) % d == 0
  {
    DivModUnique(n + d, d, n / d + 1, 0);
  }

  /** Dropping the remainder leaves a multiple. */
  lemma {:induction false} ModDrop(n: nat, d: nat)
    requires d > 0
    ensures n % d <= n
    ensures (n - n % d) % d == 0
  {
    DivModUnique(n - n % d, d, n / d, 0);
  }

  /** n a multiple of e, and e items of b bits fill g bytes: the n items
      fill whole bytes. */
  lemma {:induction false} BlocksFillBytes(n: nat, e: nat, b: nat, g: nat)
    requires e > 0 && e * b == g * 8
    requires n % e == 0
    ensures (b * n) % 8 == 0
  {
    var q := n / e;
    assert n == q * e;
    assert b * n == 8 * (q * g) by {
      assert b * (q * e) == q * (e * b);
    }
    DivModUnique(b * n, 8, q * g, 0);
  }

  /** The bytes that the bits of n <= d items fill are within the whole
      blocks that d items need. */
  lemma {:induction false} BitsWithinBlocks(n: nat, d: nat, e: nat, b: nat, g: nat)
    requires e > 0 && e * b == g * 8
    requires n <= d
    ensures (b * n) / 8 <= CeilDiv(d, e) * g
  {
    var c, c' := CeilDiv(n, e), CeilDiv(d, e);
    assert b * n <= 8 * (c * g) by {
      MulMono(n, c * e, b);
      assert (c * e) * b == c * (e * b);
    }
    assert c * g <= c' * g by {
      CeilDivMono(n, d, e);
      MulMono(c, c', g);
    }
    assert (b * n) / 8 <= c * g by {
      DivModUnique(8 * (c * g), 8, c * g, 0);
      DivMono(b * n, 8 * (c * g), 8);
    }
  }

  /** Fewer items of b bits fill no more bytes. */
  lemma {:induction false} BytesMono(m: nat, n: nat, b: nat)
    requires m <= n
    ensures (b * m) / 8 <= (b * n) / 8
  {
    MulMono(m, n, b);
    DivMono(b * m, b * n, 8);
  }

  lemma {:induction false} DivMono(x: nat, y: nat, d: nat)
    requires x <= y && d > 0
    ensures x / d <= y / d
  {
    var qx, qy := x / d, y / d;
    if qx > qy {
      MulSucc(qy, d);
      MulMono(qy + 1, qx, d);
    }
  }
}
