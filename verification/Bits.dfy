/** Bitwise operations on numbers, and the arithmetic facts that bit tricks rest on. */
module Bits {
  import opened Powers

  function BitOr(a: nat, b: nat): nat
    decreases a + b
  {
    if a == 0 then b
    else if b == 0 then a
    else 2 * BitOr(a / 2, b / 2) + (if a % 2 == 1 || b % 2 == 1 then 1 else 0)
  }

  function BitAnd(a: nat, b: nat): nat {
    if a == 0 || b == 0 then 0
    else 2 * BitAnd(a / 2, b / 2) + (if a % 2 == 1 && b % 2 == 1 then 1 else 0)
  }

  function BitXor(a: nat, b: nat): nat
    decreases a + b
  {
    if a == 0 then b
    else if b == 0 then a
    else 2 * BitXor(a / 2, b / 2) + (if a % 2 != b % 2 then 1 else 0)
  }

  /** x >> k */
  function ShiftRight(x: nat, k: nat): nat {
    QuotientNonNegative(x, Pow2(k));
    x / Pow2(k)
  }

  lemma QuotientNonNegative(x: nat, p: nat)
    requires p > 0
    ensures x / p >= 0
  {
  }

  predicate Bit(x: nat, k: nat) {
    if k == 0 then x % 2 == 1 else Bit(x / 2, k - 1)
  }

  lemma {:induction false} OrDisjoint(a: nat, q: nat, s: nat)
    requires a < Pow2(s)
    ensures BitOr(a, q * Pow2(s)) == a + q * Pow2(s)
  {
    if s > 0 && a > 0 && q > 0 {
      var b := q * Pow2(s);
      assert b == 2 * (q * Pow2(s - 1));
      assert q * Pow2(s - 1) >= 1;
      assert b / 2 == q * Pow2(s - 1) && b % 2 == 0;
      OrDisjoint(a / 2, q, s - 1);
    }
  }

  lemma {:induction false} BitOfShift(x: nat, k: nat)
    ensures ShiftRight(x, k) % 2 == 1 <==> Bit(x, k)
  {
    if k > 0 {
      BitOfShift(x / 2, k - 1);
      HalfThenShift(x, k);
    }
  }

  lemma HalfThenShift(x: nat, k: nat)
    requires k > 0
    ensures x / 2 / Pow2(k - 1) == x / Pow2(k)
  {
    var p, h := Pow2(k - 1), x / 2;
    var q, r := h / p, h % p;
    assert h == q * p + r;
    assert x == q * (2 * p) + (2 * r + x % 2) by {
      assert q * (2 * p) == 2 * (q * p);
    }
    ModUnique(x, q, 2 * r + x % 2, 2 * p);
  }

  lemma ModDouble(x: int, p: nat)
    requires p > 0
    ensures x % (2 * p) == 2 * (x / 2 % p) + x % 2
  {
    var q, r := x / 2 / p, x / 2 % p;
    assert x / 2 == q * p + r;
    assert q * (2 * p) == 2 * (q * p);
    ModUnique(x, q, 2 * r + x % 2, 2 * p);
  }

  /** Masking with a power of two less one is the remainder. */
  lemma {:induction false} AndMask(x: nat, k: nat)
    ensures BitAnd(x, Pow2(k) - 1) == x % Pow2(k)
  {
    if k > 0 {
      AndMask(x / 2, k - 1);
      ModDouble(x, Pow2(k - 1));
      assert (Pow2(k) - 1) / 2 == Pow2(k - 1) - 1;
    }
  }

  /** Setting the lowest bit of two numbers compares the rest of them. */
  lemma {:induction false} OrOneCompares(a: nat, b: nat)
    ensures BitOr(a, 1) == BitOr(b, 1) <==> a / 2 == b / 2
  {
    OrOne(a);
    OrOne(b);
  }

  lemma {:induction false} OrOne(a: nat)
    ensures BitOr(a, 1) == a / 2 * 2 + 1
  {
    if a > 0 {
      assert BitOr(a / 2, 0) == a / 2;
    }
  }

  /** Dropping the lowest bit of an exclusive or compares the rest of the numbers. */
  lemma {:induction false} XorCompares(a: nat, b: nat)
    ensures ShiftRight(BitXor(a, b), 1) == 0 <==> a / 2 == b / 2
  {
    assert Pow2(1) == 2;
    if a > 0 && b > 0 {
      XorZero(a / 2, b / 2);
    }
  }

  lemma {:induction false} XorZero(a: nat, b: nat)
    ensures BitXor(a, b) == 0 <==> a == b
    decreases a + b
  {
    if a > 0 && b > 0 {
      XorZero(a / 2, b / 2);
    }
  }

  lemma {:induction false} AndPower(x: nat, k: nat)
    ensures BitAnd(x, Pow2(k)) == if Bit(x, k) then Pow2(k) else 0
  {
    if k > 0 {
      AndPower(x / 2, k - 1);
    } else {
      assert BitAnd(x, 1) == x % 2;
    }
    if x == 0 {
      ZeroBit(k);
    }
  }

  lemma {:induction false} ZeroBit(k: nat)
    ensures !Bit(0, k)
  {
    if k > 0 {
      ZeroBit(k - 1);
    }
  }

  lemma OneAndPower(x: nat, k: nat)
    requires k > 0
    ensures BitOr(1, Pow2(k)) == BitOr(Pow2(k), 1) == 2 * Pow2(k - 1) + 1
    ensures BitAnd(x, 2 * Pow2(k - 1) + 1) == 2 * BitAnd(x / 2, Pow2(k - 1)) + x % 2
  {
    var p := Pow2(k - 1);
    assert (2 * p + 1) / 2 == p && (2 * p + 1) % 2 == 1 && (2 * p) / 2 == p;
    assert BitOr(0, p) == p && BitOr(p, 0) == p;
    assert Pow2(k) == 2 * p;
  }

  /** All bits of a two-bit mask are set exactly when both bits are. */
  lemma {:induction false} AndTwoBits(x: nat, a: nat, b: nat)
    ensures var mask := BitOr(Pow2(a), Pow2(b)); BitAnd(x, mask) == mask <==> Bit(x, a) && Bit(x, b)
    decreases a + b
  {
    if a > 0 && b > 0 {
      TwoShiftedBits(x, a, b);
      AndTwoBits(x / 2, a - 1, b - 1);
    } else if a > 0 {
      OneAndPower(x, a);
      AndPower(x / 2, a - 1);
    } else if b > 0 {
      OneAndPower(x, b);
      AndPower(x / 2, b - 1);
    } else {
      assert BitOr(1, 1) == 1 && BitAnd(x, 1) == x % 2;
    }
  }

  lemma TwoShiftedBits(x: nat, a: nat, b: nat)
    requires a > 0 && b > 0
    ensures BitOr(Pow2(a), Pow2(b)) == 2 * BitOr(Pow2(a - 1), Pow2(b - 1))
    ensures BitAnd(x, 2 * BitOr(Pow2(a - 1), Pow2(b - 1))) == 2 * BitAnd(x / 2, BitOr(Pow2(a - 1), Pow2(b - 1)))
  {
    var m := BitOr(Pow2(a - 1), Pow2(b - 1));
    assert (2 * m) / 2 == m;
  }

  /** Testing two bits by shifting each down to the lowest place. */
  lemma {:induction false} ShiftTwoBits(x: nat, a: nat, b: nat)
    ensures BitAnd(BitAnd(1, ShiftRight(x, a)), ShiftRight(x, b)) != 0 <==> Bit(x, a) && Bit(x, b)
  {
    BitOfShift(x, a);
    BitOfShift(x, b);
    AndOne(ShiftRight(x, a));
    AndOne(ShiftRight(x, b));
  }

  lemma {:induction false} AndOne(y: nat)
    ensures BitAnd(1, y) == y % 2
  {
  }
}
