/** Facts about natural-number division and remainder used by the index layouts. */
module Arith {

  /** Quotient and remainder are determined by `x == q * n + r` with `0 <= r < n`. */
  lemma DivModUnique(x: int, n: int, q: int, r: int)
    requires n > 0 && 0 <= r < n && x == q * n + r
    ensures x / n == q && x % n == r
  {
    var d := x / n - q;
    assert d * n == r - x % n;
    assert d > 0 ==> d * n >= n;
    assert d < 0 ==> d * n <= -n;
  }

  lemma ModAddMod(x: nat, y: nat, n: nat)
    requires n > 0
    ensures (x % n + y) % n == (x + y) % n
  {
    var z := x % n + y;
    assert x + y == (x / n + z / n) * n + z % n;
    DivModUnique(x + y, n, x / n + z / n, z % n);
  }

  /** A row-major index `q * n + r` stays below `n * l` when `q < l` and `r < n`. */
  lemma IndexBelow(q: nat, n: nat, r: nat, l: nat)
    requires q < l && r < n
    ensures q * n + r < n * l
  {
    assert q * n + r < (q + 1) * n;
    assert (q + 1) * n <= l * n;
  }

  /** Splitting an index below `n * l` gives a row below `l`. */
  lemma DivBelow(i: nat, n: nat, l: nat)
    requires n > 0 && i < n * l
    ensures i / n < l && i % n < n
  {
    var q := i / n;
    assert q >= l ==> q * n >= l * n;
  }
}
