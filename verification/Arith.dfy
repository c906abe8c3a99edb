/** Facts about division with remainder. */
module Arith {

  lemma ModUnique(x: int, q: int, r: int, m: int)
    requires m > 0 && 0 <= r < m && x == q * m + r
    ensures x % m == r && x / m == q
  {
    var q', r' := x / m, x % m;
    assert (q - q') * m == r' - r;
    assert q - q' >= 1 ==> (q - q') * m >= m;
    assert q - q' <= -1 ==> (q - q') * m <= -m;
  }

  lemma ModAdd(r: int, k: int, m: int)
    requires m > 0
    ensures (k * m + r) % m == r % m
  {
    var q := r / m;
    assert k * m + r == (k + q) * m + r % m by { assert (k + q) * m == k * m + q * m; }
    ModUnique(k * m + r, k + q, r % m, m);
  }

  lemma ModPlus(x: int, n: int, m: int)
    requires m > 0
    ensures (x % m + n) % m == (x + n) % m
  {
    var q := x / m;
    assert x + n == q * m + (x % m + n);
    ModAdd(x % m + n, q, m);
  }

  /** Among 16 consecutive numbers one is a multiple of 16. */
  lemma NextOfSixteen(x: nat) returns (k: nat)
    ensures k < 16 && (x + k) % 16 == 0
  {
    var q, r := x / 16, x % 16;
    k := if r == 0 then 0 else 16 - r;
    ModUnique(x + k, if r == 0 then q else q + 1, 0, 16);
  }

  /** Bit `d` of a number: mask & (1 << d). */
  predicate Has(mask: nat, d: nat) {
    if d == 0 then mask % 2 == 1 else Has(mask / 2, d - 1)
  }
}
