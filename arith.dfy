/** Integer arithmetic behind the quadrant size: the source takes sqrt(N) and
    floors quotients by it; here the side is the integer square root of N. */
module Arith {

  /** The integer square root: the largest r with r * r <= n. */
  function Isqrt(n: nat): (r: nat)
    ensures r * r <= n < (r + 1) * (r + 1)
  {
    if n == 0 then 0
    else
      var s := Isqrt(n - 1);
      if (s + 1) * (s + 1) <= n then s + 1 else s
  }

  /** N is a perfect square, so that the quadrants tile the grid exactly. */
  predicate PerfectSquare(n: nat)
  {
    Isqrt(n) * Isqrt(n) == n
  }

  lemma MulMono(a: nat, b: nat, c: nat)
    requires a <= b
    ensures a * c <= b * c
  {
  }

  lemma SquareMono(a: nat, b: nat)
    requires a < b
    ensures a * a < b * b
  {
    MulMono(a, b, a);
    MulMono(a, b, b);
    assert a * b == b * a;
  }

  /** The square root of a square is its side. */
  lemma {:induction false} IsqrtOfSquare(q: nat)
    ensures Isqrt(q * q) == q
    ensures PerfectSquare(q * q)
  {
    var r := Isqrt(q * q);
    if r < q {
      SquareMono(r + 1, q + 1);
      assert (r + 1) * (r + 1) <= q * q by {
        if r + 1 < q { SquareMono(r + 1, q); }
      }
    } else if r > q {
      SquareMono(q, r);
    }
  }

  /** A cell index a lies in the k-th block of side q exactly when a / q == k. */
  lemma InBlock(q: nat, a: nat, k: nat)
    requires q > 0
    ensures (k * q <= a < k * q + q) <==> a / q == k
  {
    var d, r := a / q, a % q;
    assert a == d * q + r && 0 <= r < q;
    if d < k {
      MulMono(d + 1, k, q);
    } else if d > k {
      MulMono(k + 1, d, q);
    }
  }

  /** The block holding an index below q * q ends within q * q. */
  lemma BlockInside(q: nat, a: nat)
    requires q > 0 && a < q * q
    ensures (a / q) * q + q <= q * q
  {
    InBlock(q, a, a / q);
    if a / q >= q {
      MulMono(q, a / q, q);
    }
    MulMono(a / q + 1, q, q);
  }
}
