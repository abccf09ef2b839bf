/** Bytes, powers of two, and the few laws of multiplication the proofs take one at a time. */
module Numbers {
  type Byte = b: int | 0 <= b < 256

  function Pow2(k: nat): (r: nat)
    ensures r > 0
  {
    if k == 0 then 1 else 2 * Pow2(k - 1)
  }

  lemma {:induction false} Pow2Sum(a: nat, b: nat)
    ensures Pow2(a + b) == Pow2(a) * Pow2(b)
  {
    if b > 0 { Pow2Sum(a, b - 1); }
  }

  lemma Spread(a: int, b: int, c: int)
    ensures (a + b) * c == a * c + b * c
  {}

  lemma Regroup(a: int, b: int, c: int)
    ensures a * (b * c) == a * b * c
  {}

  lemma Scaled(a: int, b: int, c: nat)
    requires a <= b
    ensures a * c <= b * c
  {}

  lemma DivModUnique(x: int, d: nat, q: int, m: nat)
    requires m < d && x == q * d + m
    ensures x / d == q && x % d == m
  {
    var p, r := x / d, x % d;
    assert x == p * d + r;
    if p < q {
      Scaled(p + 1, q, d);
      Spread(p, 1, d);
    } else if q < p {
      Scaled(q + 1, p, d);
      Spread(q, 1, d);
    }
  }
}
