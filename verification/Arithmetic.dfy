/**
 Products and quotients, one step at a time.
 */
module Arithmetic {
  lemma Whole(x: nat, n: nat)
    requires n > 0
    ensures 0 <= x / n && 0 <= x % n < n && x == x / n * n + x % n
  {
  }

  lemma DivMod(q: nat, r: nat, n: nat)
    requires r < n
    ensures (q * n + r) / n == q && (q * n + r) % n == r
  {
    var x := q * n + r;
    if x / n < q {
      Scale(x / n + 1, q, n);
    } else if x / n > q {
      Scale(q + 1, x / n, n);
    }
  }

  lemma Scale(x: nat, y: nat, n: nat)
    requires x <= y
    ensures x * n <= y * n
  {
  }

  lemma Distribute(x: nat, y: nat, n: nat)
    ensures (x + y) * n == x * n + y * n && (x + y + 1) * n == (x + y) * n + n
  {
  }
}
