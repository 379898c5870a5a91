/** Numbers of 64 bits, which wrap around, and their bits. */
module Words {
  import opened Arithmetic

  const TWO_64: int := 0x1_0000_0000_0000_0000

  type Word = n: nat | n < TWO_64 witness 0

  function Wrap(n: int): (w: Word)
    ensures 0 <= n < TWO_64 ==> w == n
  {
    n % TWO_64
  }

  function Pow2(n: nat): (p: nat)
    ensures p > 0
  {
    if n == 0 then 1 else 2 * Pow2(n - 1)
  }

  /** The low `w` bits of two numbers combined, bit by bit. */
  function Bits(f: (bool, bool) -> bool, a: nat, b: nat, w: nat): (r: nat)
    ensures r < Pow2(w)
  {
    if w == 0 then 0
    else 2 * Bits(f, a / 2, b / 2, w - 1) + if f(a % 2 == 1, b % 2 == 1) then 1 else 0
  }

  lemma Width()
    ensures Pow2(64) == TWO_64
  {
    assert Pow2(4) == 0x10;
    PowSum(4, 4);
    PowSum(8, 8);
    PowSum(16, 16);
    PowSum(32, 32);
  }

  lemma {:induction false} PowSum(m: nat, n: nat)
    ensures Pow2(m + n) == Pow2(m) * Pow2(n)
  {
    if m > 0 {
      PowSum(m - 1, n);
      assert Pow2(m + n) == 2 * Pow2(m - 1 + n);
    }
  }

  predicate Both(x: bool, y: bool) { x && y }

  predicate Either(x: bool, y: bool) { x || y }

  predicate OnlyOne(x: bool, y: bool) { x != y }

  function And(a: Word, b: Word): Word {
    Width();
    Bits(Both, a, b, 64)
  }

  function Or(a: Word, b: Word): Word {
    Width();
    Bits(Either, a, b, 64)
  }

  function Xor(a: Word, b: Word): Word {
    Width();
    Bits(OnlyOne, a, b, 64)
  }

  function Not(a: Word): Word {
    TWO_64 - 1 - a
  }

  lemma {:induction false} TimesAtLeast(q: nat, b: nat)
    requires b > 0
    ensures q * b >= q
    decreases b
  {
    if b > 1 {
      TimesAtLeast(q, b - 1);
      assert q * b == q * (b - 1) + q;
    }
  }

  lemma QuotientSmall(a: nat, b: nat)
    requires b > 0
    ensures 0 <= a / b <= a
  {
    var q := a / b;
    assert a == b * q + a % b;
    TimesAtLeast(q, b);
    assert b * q == q * b;
  }

  function Quotient(a: Word, b: Word): Word
    requires b != 0
  {
    QuotientSmall(a, b);
    a / b
  }

  function Remainder(a: Word, b: Word): Word
    requires b != 0
  {
    a % b
  }

  function ShiftLeft(a: Word, n: nat): Word {
    Wrap(a * Pow2(n))
  }

  function ShiftRight(a: Word, n: nat): Word {
    QuotientSmall(a, Pow2(n));
    a / Pow2(n)
  }

  // ----- what these are -----

  /** The i-th bit. */
  predicate Bit(a: nat, i: nat) {
    if i == 0 then a % 2 == 1 else Bit(a / 2, i - 1)
  }

  lemma {:induction false} BitOf(f: (bool, bool) -> bool, a: nat, b: nat, w: nat, i: nat)
    requires i < w
    ensures Bit(Bits(f, a, b, w), i) <==> f(Bit(a, i), Bit(b, i))
  {
    var r := Bits(f, a, b, w);
    assert r / 2 == Bits(f, a / 2, b / 2, w - 1);
    if i > 0 {
      BitOf(f, a / 2, b / 2, w - 1, i - 1);
    }
  }

  lemma {:induction false} ComplementBit(a: nat, w: nat, i: nat)
    requires i < w && a < Pow2(w)
    ensures Bit(Pow2(w) - 1 - a, i) <==> !Bit(a, i)
  {
    var r, p := Pow2(w) - 1 - a, Pow2(w - 1);
    assert r == 2 * p - 1 - a && a == 2 * (a / 2) + a % 2;
    assert r / 2 == p - 1 - a / 2;
    if i > 0 {
      ComplementBit(a / 2, w - 1, i - 1);
    }
  }

  /** The operators work on the bits one by one. */
  lemma BitwiseExactly(a: Word, b: Word, i: nat)
    requires i < 64
    ensures Bit(And(a, b), i) <==> Bit(a, i) && Bit(b, i)
    ensures Bit(Or(a, b), i) <==> Bit(a, i) || Bit(b, i)
    ensures Bit(Xor(a, b), i) <==> Bit(a, i) != Bit(b, i)
    ensures Bit(Not(a), i) <==> !Bit(a, i)
  {
    BitOf(Both, a, b, 64, i);
    BitOf(Either, a, b, 64, i);
    BitOf(OnlyOne, a, b, 64, i);
    Width();
    ComplementBit(a, 64, i);
  }

  /** Numbers of the same bits are the same. */
  lemma {:induction false} BitsDetermine(a: nat, b: nat, w: nat)
    requires a < Pow2(w) && b < Pow2(w) && forall i: nat :: i < w ==> (Bit(a, i) <==> Bit(b, i))
    ensures a == b
  {
    if w > 0 {
      forall i: nat | i < w - 1 ensures Bit(a / 2, i) <==> Bit(b / 2, i) {
        assert Bit(a, i + 1) <==> Bit(b, i + 1);
      }
      BitsDetermine(a / 2, b / 2, w - 1);
      assert Bit(a, 0) <==> Bit(b, 0);
    }
  }

  /** The remainder by twice a number, from that by the number. */
  lemma TwiceModulus(y: nat, p: nat)
    requires p > 0
    ensures y % (2 * p) == 2 * ((y / 2) % p) + y % 2
  {
    var h := y / 2;
    var q, r := h / p, h % p;
    assert h == q * p + r && y == 2 * h + y % 2;
    assert y == q * (2 * p) + (2 * r + y % 2);
    RemainderIs(y, q, 2 * r + y % 2, 2 * p);
  }

  function Modulo(y: nat, p: nat): nat
    requires p > 0
  {
    y % p
  }

  lemma BothStep(y: nat, m: nat, w: nat)
    requires w > 0
    ensures Bits(Both, y, m, w) == 2 * Bits(Both, y / 2, m / 2, w - 1) + (if m % 2 == 1 then y % 2 else 0)
  {}

  lemma Mask(k: nat)
    requires k > 0
    ensures (Pow2(k) - 1) / 2 == Pow2(k - 1) - 1 && (Pow2(k) - 1) % 2 == 1 && Pow2(k) == 2 * Pow2(k - 1)
  {
    assert Pow2(k) - 1 == 2 * (Pow2(k - 1) - 1) + 1;
  }

  /** A mask of the low `k` bits keeps the remainder. */
  lemma {:induction false} LowBits(y: nat, k: nat, w: nat)
    requires k <= w
    ensures Bits(Both, y, Pow2(k) - 1, w) == Modulo(y, Pow2(k))
  {
    hide *;
    if k == 0 {
      NoBits(y, w);
      PowerZero(y);
    } else {
      var p, q := Pow2(k - 1), Pow2(k);
      Mask(k);
      BothStep(y, q - 1, w);
      LowBits(y / 2, k - 1, w - 1);
      LowStep(y, p, q, Bits(Both, y / 2, p - 1, w - 1));
    }
  }

  lemma PowerZero(y: nat)
    ensures Pow2(0) == 1 && Modulo(y, Pow2(0)) == 0
  {}

  lemma LowStep(y: nat, p: nat, q: nat, r: nat)
    requires p > 0 && q == 2 * p && r == Modulo(y / 2, p)
    ensures 2 * r + y % 2 == Modulo(y, q)
  {
    TwiceModulus(y, p);
  }

  lemma {:induction false} NoBits(y: nat, w: nat)
    ensures Bits(Both, y, 0, w) == 0
  {
    if w > 0 {
      NoBits(y / 2, w - 1);
    }
  }

  /** The other bits keep the rest. */
  lemma {:induction false} HighBits(y: nat, k: nat, w: nat)
    requires k <= w && y < Pow2(w)
    ensures Pow2(k) <= Pow2(w)
    ensures Bits(Both, y, Pow2(w) - Pow2(k), w) == y - y % Pow2(k)
  {
    if w == 0 {
    } else if k == 0 {
      hide Bits;
      Mask(w);
      BothStep(y, Pow2(w) - 1, w);
      HighBits(y / 2, 0, w - 1);
      assert y == 2 * (y / 2) + y % 2;
    } else {
      hide Bits;
      HighBits(y / 2, k - 1, w - 1);
      var m := Pow2(w) - Pow2(k);
      BothStep(y, m, w);
      assert m == 2 * (Pow2(w - 1) - Pow2(k - 1)) && m / 2 == Pow2(w - 1) - Pow2(k - 1) && m % 2 == 0;
      TwiceModulus(y, Pow2(k - 1));
      assert y == 2 * (y / 2) + y % 2;
    }
  }

  lemma {:induction false} PowersRise(k: nat, w: nat)
    requires k <= w
    ensures Pow2(k) <= Pow2(w)
  {
    if k < w {
      PowersRise(k, w - 1);
    }
  }

  lemma MaskExactly(y: Word, k: nat)
    requires k < 64
    ensures Pow2(k) < TWO_64
    ensures And(y, Pow2(k) - 1) == y % Pow2(k)
    ensures And(y, Not(Pow2(k) - 1)) == y - y % Pow2(k)
  {
    Width();
    PowersRise(k, 63);
    assert Pow2(64) == 2 * Pow2(63);
    LowBits(y, k, 64);
    HighBits(y, k, 64);
  }

  /** Shifting by one place more doubles, or halves. */
  lemma ShiftsExactly(a: Word, n: nat)
    ensures ShiftLeft(a, 0) == a && ShiftRight(a, 0) == a
    ensures ShiftLeft(a, n + 1) == Wrap(2 * ShiftLeft(a, n))
    ensures ShiftRight(a, n + 1) == ShiftRight(a, n) / 2
  {
    var p := Pow2(n);
    assert a * Pow2(n + 1) == 2 * (a * p);
    WrapTwice(a * p);
    HalfQuotient(a, p);
  }

  lemma WrapTwice(x: nat)
    ensures Wrap(2 * Wrap(x)) == Wrap(2 * x)
  {
    var q, r := x / TWO_64, x % TWO_64;
    var base := 2 * q * TWO_64;
    RemainderIs(base, 2 * q, 0, TWO_64);
    ModAdd(base, 2 * r, TWO_64);
    assert 2 * x == base + 2 * r;
  }

  lemma HalfQuotient(a: nat, p: nat)
    requires p > 0
    ensures a / (2 * p) == (a / p) / 2
  {
    var q, r := a / p, a % p;
    var h := q / 2;
    assert a == q * p + r && q == 2 * h + q % 2;
    var rest := (q % 2) * p + r;
    assert q * p == h * (2 * p) + (q % 2) * p;
    assert a == h * (2 * p) + rest && rest < 2 * p;
    RemainderIs(a, h, rest, 2 * p);
    QuotientIs(a, h, rest, 2 * p);
  }

  lemma QuotientIs(x: nat, q: nat, r: nat, d: nat)
    requires d > 0 && r < d && x == q * d + r
    ensures x / d == q
  {
    var p := x / d;
    RemainderIs(x, q, r, d);
    assert x == p * d + r;
    assert (q - p) * d == 0;
    NoMultipleBetween(q - p, d);
  }
}
