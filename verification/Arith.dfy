/** Small facts about products, remainders and powers of two. */
module Arith {

  lemma MulMono(q: int, a: int, b: int)
    requires 0 <= q && a <= b
    ensures q * a <= q * b
  {
    assert q * b - q * a == q * (b - a);
  }

  lemma MulAssoc(a: int, b: int, c: int)
    ensures (a * b) * c == a * (b * c)
  {
  }

  lemma MulAdd(a: int, b: int, t: int)
    ensures (a + b) * t == a * t + b * t
  {
  }

  lemma MulAtLeast(q: int, d: int)
    requires 1 <= q && 0 <= d
    ensures d <= q * d
  {
    assert q * d == (q - 1) * d + d;
  }

  /** Quotient and remainder are determined by the number. */
  lemma QuotientUnique(a: int, r: int, b: int, s: int, d: int)
    requires 0 <= r < d && 0 <= s < d
    requires a * d + r == b * d + s
    ensures a == b && r == s
  {
    assert (a - b) * d == a * d - b * d;
    if a > b { MulAtLeast(a - b, d); }
    if a < b {
      assert (b - a) * d == b * d - a * d;
      MulAtLeast(b - a, d);
    }
  }

  lemma DivModOf(q: int, r: int, d: int)
    requires 0 <= r < d
    ensures (q * d + r) / d == q && (q * d + r) % d == r
  {
    var n := q * d + r;
    QuotientUnique(n / d, n % d, q, r, d);
  }

  lemma ModLess(i: int, d: int)
    requires 0 < d
    ensures (i - d) % d == i % d
  {
    var q, r := i / d, i % d;
    assert i - d == (q - 1) * d + r;
    DivModOf(q - 1, r, d);
  }

  function Pow2(n: nat): (p: nat)
    ensures p >= 1
  {
    if n == 0 then 1 else 2 * Pow2(n - 1)
  }

  lemma {:induction false} Pow2Grows(m: nat, n: nat)
    requires m <= n
    ensures 1 <= Pow2(m) <= Pow2(n)
    decreases n
  {
    if n > 0 { Pow2Grows(if m < n then m else n - 1, n - 1); }
  }

  lemma {:induction false} Pow2Sum(m: nat, n: nat)
    ensures Pow2(m + n) == Pow2(m) * Pow2(n)
  {
    if m > 0 {
      Pow2Sum(m - 1, n);
      assert Pow2(m + n) == 2 * Pow2(m - 1 + n);
      assert 2 * (Pow2(m - 1) * Pow2(n)) == (2 * Pow2(m - 1)) * Pow2(n);
    }
  }

  function Pow256(k: nat): nat {
    if k == 0 then 1 else 256 * Pow256(k - 1)
  }

  lemma {:induction false} Pow256Sum(j: nat, k: nat)
    ensures Pow256(j + k) == Pow256(j) * Pow256(k) && Pow256(j) >= 1
  {
    if j > 0 {
      Pow256Sum(j - 1, k);
      MulAssoc(256, Pow256(j - 1), Pow256(k));
    }
  }
}
