/** Multiples and remainders. */
module Arithmetic {
  lemma {:induction false} AtLeastOnce(n: int, d: int)
    requires d > 0 && n >= 1
    ensures n * d >= d
    decreases n
  {
    if n > 1 {
      AtLeastOnce(n - 1, d);
      assert n * d == (n - 1) * d + d;
    }
  }

  lemma NoMultipleBetween(n: int, d: int)
    requires d > 0
    ensures n != 0 ==> n * d >= d || n * d <= -d
  {
    if n > 0 {
      AtLeastOnce(n, d);
    } else if n < 0 {
      AtLeastOnce(-n, d);
      assert (-n) * d == -(n * d);
    }
  }

  /** The remainder is the only one in range. */
  lemma RemainderIs(x: nat, q: nat, r: nat, d: nat)
    requires d > 0 && r < d && x == q * d + r
    ensures x % d == r
  {
    var p := x / d;
    assert x == p * d + x % d;
    assert (q - p) * d == x % d - r;
    NoMultipleBetween(q - p, d);
  }

  lemma ModAdd(base: nat, x: nat, d: nat)
    requires d > 0 && base % d == 0
    ensures (base + x) % d == x % d
  {
    var q, p := base / d, x / d;
    assert base == q * d && x == p * d + x % d;
    assert base + x == (q + p) * d + x % d;
    RemainderIs(base + x, q + p, x % d, d);
  }

  lemma DividesOn(base: nat, a: nat, d: nat)
    requires a > 0 && d > 0 && base % a == 0 && a % d == 0
    ensures base % d == 0
  {
    var q, r := base / a, a / d;
    assert base == q * a && a == r * d;
    assert base == (q * r) * d + 0;
    RemainderIs(base, q * r, 0, d);
  }
}
