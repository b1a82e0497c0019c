/**
 Unsigned 32-bit machine integers. The renderer was written for a Rust
 release in which `+` and `*` on `u32` wrapped silently, so every place where
 the source could overflow applies `Wrap32` explicitly.
 */
module Ints {

  const U32_LIMIT: int := 0x1_0000_0000

  type u32 = x: int | 0 <= x < U32_LIMIT

  /** Reduction modulo 2^32, i.e. the result of a wrapping `u32` operation. */
  function Wrap32(x: int): (r: u32)
    ensures 0 <= x < U32_LIMIT ==> r == x
    ensures (r - x) % U32_LIMIT == 0
  {
    x % U32_LIMIT
  }

  /** Logical right shift `n >> k`: each position shifted halves the value, rounding down. */
  function Shr(n: u32, k: nat): (r: u32)
    ensures r <= n
  {
    if k == 0 then n else Shr(n, k - 1) / 2
  }

  /** Shifting further never yields more. */
  lemma {:induction false} ShrAntitone(n: u32, j: nat, k: nat)
    requires j <= k
    ensures Shr(n, k) <= Shr(n, j)
  {
    if j < k {
      ShrAntitone(n, j, k - 1);
    }
  }

  /** Cancelling a positive factor from a strict inequality. */
  function Pow2(k: nat): (p: nat)
    ensures p >= 1
  {
    if k == 0 then 1 else 2 * Pow2(k - 1)
  }

  /** `n >> k` is division by 2^k. */
  lemma {:induction false} ShrIsDiv(n: u32, k: nat)
    ensures Shr(n, k) == n / Pow2(k)
  {
    if k > 0 {
      ShrIsDiv(n, k - 1);
      DivHalf(n, Pow2(k - 1));
    }
  }

  /** Halving the quotient by `a` is dividing by `a * 2`. */
  lemma DivHalf(n: nat, a: nat)
    requires a > 0
    ensures n / a / 2 == n / (a * 2)
  {
    var q, r := n / a, n % a;
    var q1, r1 := q / 2, q % 2;
    assert n == q * a + r;
    Regroup(q1, r1, r, a);
    var x := if r1 == 0 then r else a + r;
    assert n == q1 * (a * 2) + x;
    DivModOf(q1, a * 2, x);
  }

  /** `(2 * q1 + r1) * a + r`, regrouped as a multiple of `a * 2` plus a remainder. */
  lemma Regroup(q1: nat, r1: nat, r: nat, a: nat)
    requires r1 < 2
    ensures (2 * q1 + r1) * a + r == q1 * (a * 2) + (if r1 == 0 then r else a + r)
  {
  }

  lemma MulCancel(a: int, b: int, w: int)
    requires w > 0 && a * w < b * w
    ensures a < b
  {
  }

  /** Division and remainder recover the quotient and digit of `q * w + x`. */
  lemma DivModOf(q: nat, w: nat, x: nat)
    requires 0 <= x < w
    ensures (q * w + x) / w == q
    ensures (q * w + x) % w == x
  {
    var m := q * w + x;
    var q', x' := m / w, m % w;
    assert q' * w + x' == q * w + x;
    assert (q' - q) * w == x - x';
    MulCancel(q' - q, 1, w);
    assert (q - q') * w == x' - x;
    MulCancel(q - q', 1, w);
  }
}
