/** Facts about Euclidean division that the other modules use. */
module Arithmetic {

  lemma DivMod(n: nat, d: nat)
    requires d > 0
    ensures n == (n / d) * d + n % d && 0 <= n % d < d
    ensures d > 1 && n >= d ==> 0 < n / d < n
  {
    var q := n / d;
    if d > 1 && n >= d {
      assert q >= 1;
      assert q * d == q * 2 + q * (d - 2);
      assert q * (d - 2) >= 0;
    }
  }

  /** A non-zero multiple of d is at least d in size. */
  lemma MultipleBounds(e: int, d: int)
    requires d > 0
    ensures e >= 1 ==> e * d >= d
    ensures e <= -1 ==> e * d <= -d
  {
  }

  /** Quotient and remainder are unique: n == q * d + r with 0 <= r < d fixes both. */
  lemma DivUnique(n: int, d: int, q: int, r: int)
    requires d > 0 && 0 <= r < d && n == q * d + r
    ensures n / d == q && n % d == r
  {
    var e := q - n / d;
    assert e * d == q * d - (n / d) * d;
    MultipleBounds(e, d);
  }

  /** Parity of a count that grows by one exactly when a flag flips: the
      step a toggle event adds to a run of clock toggles. */
  lemma ParityCons(a0: bool, a1: bool, fired: bool, t: nat, last: bool)
    requires a1 == (if fired then !a0 else a0)
    requires last == (a1 == (t % 2 == 0))
    ensures last == (a0 == (((if fired then 1 else 0) + t) % 2 == 0))
  {
    if fired {
      assert ((t + 1) % 2 == 0) == (t % 2 != 0);
    }
  }
}
