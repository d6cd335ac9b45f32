/** Shifts, masks and unions of unsigned words, bit by bit, and the arithmetic they amount to. */
module Bits {
  import opened Common

  function Pow2(k: nat): (p: nat)
    ensures p >= 1
  {
    if k == 0 then 1 else 2 * Pow2(k - 1)
  }

  function Bit(a: nat, i: nat): bool {
    if i == 0 then a % 2 == 1 else Bit(a / 2, i - 1)
  }

  function Or(a: nat, b: nat): nat {
    if a == 0 && b == 0 then 0
    else (if a % 2 == 1 || b % 2 == 1 then 1 else 0) + 2 * Or(a / 2, b / 2)
  }

  function And(a: nat, b: nat): nat {
    if a == 0 || b == 0 then 0
    else (if a % 2 == 1 && b % 2 == 1 then 1 else 0) + 2 * And(a / 2, b / 2)
  }

  /** `<<` on `u32`: what leaves the word is lost. */
  function Shl(a: nat, k: nat): nat {
    a * Pow2(k) % TWO_32
  }

  function Shr(a: nat, k: nat): nat
    decreases k
  {
    if k == 0 then a else Shr(a / 2, k - 1)
  }

  /** `Or` and `And` are the bitwise operations. */
  lemma {:induction false} BitwiseOr(a: nat, b: nat, i: nat)
    ensures Bit(Or(a, b), i) <==> Bit(a, i) || Bit(b, i)
    decreases i
  {
    OrHalves(a, b);
    if i == 0 {
    } else {
      BitwiseOr(a / 2, b / 2, i - 1);
    }
  }

  lemma {:induction false} BitwiseAnd(a: nat, b: nat, i: nat)
    ensures Bit(And(a, b), i) <==> Bit(a, i) && Bit(b, i)
    decreases i
  {
    AndHalves(a, b);
    if i == 0 {
    } else {
      BitwiseAnd(a / 2, b / 2, i - 1);
    }
  }

  lemma OrHalves(a: nat, b: nat)
    ensures Or(a, b) / 2 == Or(a / 2, b / 2) && (Or(a, b) % 2 == 1 <==> a % 2 == 1 || b % 2 == 1)
  {
  }

  lemma AndHalves(a: nat, b: nat)
    ensures And(a, b) / 2 == And(a / 2, b / 2) && (And(a, b) % 2 == 1 <==> a % 2 == 1 && b % 2 == 1)
  {
    if a == 0 || b == 0 {
      assert And(a / 2, b / 2) == 0;
    }
  }

  /** Fields that do not overlap are put together by addition. */
  lemma {:induction false} OrDisjoint(a: nat, b: nat, k: nat)
    requires b < Pow2(k)
    ensures Or(a * Pow2(k), b) == a * Pow2(k) + b
  {
    if k == 0 {
      OrZero(a);
    } else {
      Doubled(a, k);
      OrDisjoint(a, b / 2, k - 1);
      OrEven(a * Pow2(k - 1), b);
    }
  }

  lemma OrEven(x: nat, b: nat)
    ensures Or(2 * x, b) == 2 * Or(x, b / 2) + b % 2
  {
    OrHalves(2 * x, b);
  }

  lemma Doubled(a: nat, k: nat)
    requires k > 0
    ensures a * Pow2(k) == 2 * (a * Pow2(k - 1)) && a * Pow2(k) / 2 == a * Pow2(k - 1) && a * Pow2(k) % 2 == 0
  {
    assert a * (2 * Pow2(k - 1)) == 2 * (a * Pow2(k - 1));
  }

  lemma {:induction false} OrZero(a: nat)
    ensures Or(a, 0) == a
  {
    if a == 0 {
    } else {
      OrZero(a / 2);
    }
  }

  /** A mask of `k` ones takes the remainder. */
  lemma {:induction false} AndMask(a: nat, k: nat)
    ensures And(a, Pow2(k) - 1) == a % Pow2(k)
  {
    if k == 0 {
    } else {
      var mask: nat := Pow2(k) - 1;
      AndMask(a / 2, k - 1);
      assert mask / 2 == Pow2(k - 1) - 1 && mask % 2 == 1;
      AndOdd(a, mask);
      RemainderByHalves(a, Pow2(k - 1));
    }
  }

  lemma AndOdd(a: nat, b: nat)
    requires b % 2 == 1
    ensures And(a, b) == 2 * And(a / 2, b / 2) + a % 2
  {
    AndHalves(a, b);
  }

  lemma RemainderByHalves(a: nat, n: nat)
    requires n >= 1
    ensures a % (2 * n) == 2 * (a / 2 % n) + a % 2
  {
    var q, r := a / 2 / n, a / 2 % n;
    assert a / 2 == q * n + r;
    assert a == (2 * n) * q + (2 * r + a % 2) by {
      assert 2 * (q * n) == (2 * n) * q;
    }
    Remainder(a, 2 * n, q, 2 * r + a % 2);
  }

  lemma Remainder(a: nat, n: nat, q: nat, r: nat)
    requires a == n * q + r && r < n
    ensures a % n == r && a / n == q
  {
    Distribute(n, a / n, q);
    NoSmallMultiple(n, a / n - q);
  }

  lemma Distribute(n: int, x: int, y: int)
    ensures n * (x - y) == n * x - n * y
  {
  }

  lemma NoSmallMultiple(n: int, d: int)
    requires n >= 1
    ensures d != 0 ==> n * d >= n || n * d <= -n
  {
    if d >= 1 {
      assert n * d == n + n * (d - 1);
    } else if d <= -1 {
      assert n * d == n * (d + 1) - n;
    }
  }

  /** Shifting right by `k` divides by the power. */
  lemma {:induction false} ShrDivides(a: nat, k: nat)
    ensures Shr(a, k) == a / Pow2(k)
    decreases k
  {
    if k == 0 {
    } else {
      ShrDivides(a / 2, k - 1);
      var n, q, r := Pow2(k - 1), a / 2 / Pow2(k - 1), a / 2 % Pow2(k - 1);
      assert a / 2 == q * n + r;
      assert a == (2 * n) * q + (2 * r + a % 2) by {
        assert 2 * (q * n) == (2 * n) * q;
      }
      Remainder(a, 2 * n, q, 2 * r + a % 2);
    }
  }

  /** The powers the codec uses. */
  lemma Powers()
    ensures Pow2(0) == 1 && Pow2(6) == 64 && Pow2(8) == 0x100 && Pow2(12) == 0x1000
    ensures Pow2(16) == 0x1_0000 && Pow2(18) == 0x4_0000 && Pow2(24) == 0x100_0000
  {
    assert Pow2(6) == 64;
    assert Pow2(12) == 64 * Pow2(6);
    assert Pow2(18) == 64 * Pow2(12);
    assert Pow2(24) == 64 * Pow2(18);
    assert Pow2(8) == 4 * Pow2(6) && Pow2(16) == 16 * Pow2(12);
  }

  /** A field of `width` bits that starts at bit `k`. */
  lemma FieldIs(a: nat, k: nat, width: nat, mask: nat)
    requires mask == Pow2(width) - 1
    ensures And(Shr(a, k), mask) == a / Pow2(k) % Pow2(width)
    ensures k == 0 ==> And(a, mask) == a % Pow2(width)
  {
    ShrDivides(a, k);
    AndMask(Shr(a, k), width);
  }

  /** A shift that keeps the word loses nothing. */
  lemma ShlIs(a: nat, k: nat)
    requires a * Pow2(k) < TWO_32
    ensures Shl(a, k) == a * Pow2(k)
  {
  }
}
