/** Least, greatest, and rounding down to a multiple. */
module Numbers {
  import Radix

  function Min(a: int, b: int): int { if a <= b then a else b }

  function Max(a: int, b: int): int { if a < b then b else a }

  // The largest multiple of p that is not above a.
  function Floor(a: nat, p: nat): (f: nat)
    requires p > 0
    ensures f <= a < f + p && f % p == 0
  {
    FloorFacts(a, p);
    a / p * p
  }

  lemma FloorFacts(a: nat, p: nat)
    requires p > 0
    ensures 0 <= a / p * p <= a < a / p * p + p && a / p * p % p == 0
  {
    assert a == p * (a / p) + a % p;
    Radix.DivUnique(a / p * p, p, a / p, 0);
  }
}
