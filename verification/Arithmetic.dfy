/** Powers of two and division by them, and the larger of two numbers. */
module Arithmetic {

  function Max(x: int, y: int): int { if x < y then y else x }

  function Pow2(n: nat): (p: nat)
    ensures p > 0
  {
    if n == 0 then 1 else 2 * Pow2(n - 1)
  }

  lemma {:induction false} Pow2Add(m: nat, n: nat)
    ensures Pow2(m + n) == Pow2(m) * Pow2(n)
  {
    if m != 0 {
      Pow2Add(m - 1, n);
      MulAssoc(2, Pow2(m - 1), Pow2(n));
    }
  }

  lemma MulAssoc(x: int, y: int, z: int)
    ensures x * (y * z) == (x * y) * z
  {
  }

  lemma MulMono(x: int, y: int, z: nat)
    requires x <= y
    ensures x * z <= y * z
  {
  }

  /** Quotient and remainder are determined by where `v` falls. */
  lemma DivUnique(v: int, d: int, q: int, r: int)
    requires 0 < d && v == q * d + r && 0 <= r < d
    ensures v / d == q && v % d == r
  {
    var x, y := v / d, v % d;
    assert v == x * d + y;
    assert (x - q) * d == r - y;
    if x > q {
      MulMono(1, x - q, d);
    } else if x < q {
      MulMono(1, q - x, d);
    }
  }

  /** `v` is in the block of `n` exactly if it starts no earlier than the block and ends
      before the next. */
  lemma BlockIsInterval(v: int, n: int, d: int)
    requires 0 < d && n % d == 0
    ensures v / d == n / d <==> n <= v < n + d
  {
    var q := n / d;
    assert n == q * d;
    if n <= v < n + d {
      DivUnique(v, d, q, v - n);
    }
    if v / d == q {
      assert v == q * d + v % d;
    }
  }

  // Division by repeated subtraction, so that definitions that use it stay linear.

  function Quot(v: nat, d: nat): nat
    requires 0 < d
  {
    if v < d then 0 else 1 + Quot(v - d, d)
  }

  function Rem(v: nat, d: nat): nat
    requires 0 < d
  {
    if v < d then v else Rem(v - d, d)
  }

  /** The multiple of `d` at or below `v`. */
  function Floor(v: nat, d: nat): nat
    requires 0 < d
  {
    if v < d then 0 else d + Floor(v - d, d)
  }

  lemma {:induction false} QuotRem(v: nat, d: nat)
    requires 0 < d
    ensures v == Quot(v, d) * d + Rem(v, d) && Rem(v, d) < d
    ensures Quot(v, d) == v / d && Rem(v, d) == v % d && Floor(v, d) == v / d * d
  {
    if d <= v {
      QuotRem(v - d, d);
      Distribute(Quot(v - d, d), 1, d);
      Distribute((v - d) / d, 1, d);
      DivUnique(v, d, (v - d) / d + 1, (v - d) % d);
    } else {
      DivUnique(v, d, 0, v);
    }
  }

  /** `n` is what `v` rounds down to exactly if it is a multiple and lies in the same block. */
  lemma FloorIs(v: nat, n: nat, d: nat)
    requires 0 < d
    ensures Floor(v, d) == n <==> v / d == n / d && n % d == 0
  {
    QuotRem(v, d);
    QuotRem(n, d);
    if v / d * d == n {
      DivUnique(n, d, v / d, 0);
    }
  }

  /** Rounding leaves whole blocks alone. */
  lemma FloorOfSum(hi: nat, lo: nat, p: nat, d: nat, c: nat)
    requires 0 < d && p == c * d
    ensures Floor(hi * p + lo, d) == hi * p + Floor(lo, d)
  {
    MulAssoc(hi, c, d);
    var q := hi * c + lo / d;
    Distribute(hi * c, lo / d, d);
    QuotRem(lo, d);
    QuotRem(hi * p + lo, d);
    DivUnique(hi * p + lo, d, q, lo % d);
  }

  /** `(q * c + r) * p + lo`, taken apart by blocks of `c * p`. */
  lemma SplitBlocks(q: nat, r: nat, c: nat, p: nat, lo: nat)
    requires r < c && lo < p
    ensures (q * c + r) * p + lo == q * (c * p) + (r * p + lo)
    ensures 0 <= r * p + lo < c * p
  {
    Distribute(q * c, r, p);
    MulAssoc(q, c, p);
    MulMono(r + 1, c, p);
    Distribute(r, 1, p);
  }

  lemma FloorAt(v: nat, d: nat, q: nat, r: nat)
    requires v == q * d + r && r < d
    ensures Floor(v, d) == q * d
  {
    QuotRem(v, d);
    DivUnique(v, d, q, r);
  }

  /** Rounding to blocks of `p` discards everything below `p`. */
  lemma FloorOfHigh(hi: nat, lo: nat, p: nat, c: nat)
    requires 0 < c && lo < p
    ensures 0 < c * p && Floor(hi * p + lo, c * p) == Floor(hi, c) * p
  {
    var q, r := Quot(hi, c), Rem(hi, c);
    QuotRem(hi, c);
    SplitBlocks(q, r, c, p, lo);
    FloorAt(hi * p + lo, c * p, q, r * p + lo);
    MulAssoc(q, c, p);
  }

  lemma FloorOne(v: nat)
    ensures Floor(v, 1) == v
  {
    QuotRem(v, 1);
  }

  lemma FloorSmall(v: nat, d: nat)
    requires v < d
    ensures Floor(v, d) == 0
  {
  }

  lemma Distribute(x: int, y: int, z: int)
    ensures (x + y) * z == x * z + y * z
  {
  }
}
