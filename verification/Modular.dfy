/** Remainders, as the index of the lock-free ring uses them. */
module Modular {

  /** A multiple of c smaller than c in size is 0. */
  lemma SmallMultiple(k: int, c: int)
    requires -c < k * c < c
    ensures k == 0
  {
    if k >= 1 { MulAtLeast(k, c); }
    if k <= -1 { MulAtLeast(-k, c); }
  }

  lemma MulAtLeast(k: int, c: int)
    requires k >= 1 && c >= 0
    ensures k * c >= c
  {
    assert k * c == (k - 1) * c + c;
    assert (k - 1) * c >= 0;
  }

  /** Quotient and remainder are unique. */
  lemma DivModUnique(x: int, q: int, r: int, c: int)
    requires c > 0 && x == q * c + r && 0 <= r < c
    ensures x / c == q && x % c == r
  {
    var q', r' := x / c, x % c;
    assert x == q' * c + r';
    assert (q - q') * c == q * c - q' * c == r' - r;
    SmallMultiple(q - q', c);
  }

  lemma SmallMod(x: nat, c: nat)
    requires x < c
    ensures x % c == x
  {
  }

  /** Reducing first modulo a multiple of c changes nothing modulo c. */
  lemma ModOfMod(k: int, w: int, c: int)
    requires c > 0 && w > 0 && w % c == 0
    ensures (k % w) % c == k % c
  {
    var q, r, d := k / w, k % w, w / c;
    assert w == d * c;
    assert q * w == q * (d * c) == (q * d) * c;
    assert k == (q * d) * c + (r / c) * c + r % c;
    assert (q * d) * c + (r / c) * c == (q * d + r / c) * c;
    DivModUnique(k, q * d + r / c, r % c, c);
  }

  /** Numbers less than c apart fall on different cells of a ring of c. */
  lemma CloseNotCongruent(i: nat, j: nat, c: nat)
    requires i < j < i + c
    ensures i % c != j % c
  {
    if i % c == j % c {
      var a, b := i / c, j / c;
      assert i == a * c + i % c && j == b * c + j % c;
      assert (b - a) * c == b * c - a * c == j - i;
      SmallMultiple(b - a, c);
    }
  }
}
