/** Shift, or and and on natural numbers of any width, described bit by bit. */
module Bits {
  import opened Numerals

  /** Bit `i` of `x`. */
  predicate Bit(x: nat, i: nat) {
    if i == 0 then x % 2 == 1 else Bit(x / 2, i - 1)
  }

  function ShiftLeft(x: nat, n: nat): nat { x * Pow(2, n) }

  function Or(x: nat, y: nat): nat {
    if x == 0 then y else 2 * Or(x / 2, y / 2) + (if x % 2 == 1 || y % 2 == 1 then 1 else 0)
  }

  function And(x: nat, y: nat): nat {
    if x == 0 then 0 else 2 * And(x / 2, y / 2) + (if x % 2 == 1 && y % 2 == 1 then 1 else 0)
  }

  lemma {:induction false} BitZero(i: nat)
    ensures !Bit(0, i)
  {
    if i > 0 { BitZero(i - 1); }
  }

  lemma {:induction false} BitOr(x: nat, y: nat, i: nat)
    ensures Bit(Or(x, y), i) <==> Bit(x, i) || Bit(y, i)
  {
    if x == 0 {
      BitZero(i);
    } else if i > 0 {
      assert Or(x, y) / 2 == Or(x / 2, y / 2);
      BitOr(x / 2, y / 2, i - 1);
    }
  }

  lemma {:induction false} BitAnd(x: nat, y: nat, i: nat)
    ensures Bit(And(x, y), i) <==> Bit(x, i) && Bit(y, i)
  {
    if x == 0 {
      BitZero(i);
    } else if i > 0 {
      assert And(x, y) / 2 == And(x / 2, y / 2);
      BitAnd(x / 2, y / 2, i - 1);
    }
  }

  lemma ShiftDoubles(x: nat, n: nat)
    requires n > 0
    ensures ShiftLeft(x, n) == 2 * ShiftLeft(x, n - 1)
  {
    assert x * (2 * Pow(2, n - 1)) == 2 * (x * Pow(2, n - 1));
  }

  lemma {:induction false} BitShift(x: nat, n: nat, i: nat)
    ensures Bit(ShiftLeft(x, n), i) <==> i >= n && Bit(x, i - n)
  {
    if n > 0 {
      ShiftDoubles(x, n);
      if i > 0 { BitShift(x, n - 1, i - 1); }
    }
  }

  lemma BitOne(i: nat)
    ensures Bit(1, i) <==> i == 0
  {
    if i > 0 { BitZero(i - 1); }
  }

  lemma {:induction false} PowPositive(n: nat)
    ensures Pow(2, n) > 0
  {
    if n > 0 { PowPositive(n - 1); }
  }

  /** `(1 << n) - 1` has exactly its lowest `n` bits set. */
  lemma {:induction false} BitMask(n: nat, i: nat)
    ensures ShiftLeft(1, n) > 0
    ensures Bit(ShiftLeft(1, n) - 1, i) <==> i < n
  {
    PowPositive(n);
    if n == 0 {
      BitZero(i);
    } else {
      ShiftDoubles(1, n);
      PowPositive(n - 1);
      if i > 0 {
        assert (ShiftLeft(1, n) - 1) / 2 == ShiftLeft(1, n - 1) - 1;
        BitMask(n - 1, i - 1);
      }
    }
  }

  /** A number is determined by its bits. */
  lemma {:induction false} SameBits(x: nat, y: nat)
    requires forall i: nat :: Bit(x, i) <==> Bit(y, i)
    ensures x == y
    decreases x + y
  {
    assert Bit(x, 0) <==> Bit(y, 0);
    if x + y > 0 {
      forall i: nat ensures Bit(x / 2, i) <==> Bit(y / 2, i) {
        assert Bit(x, i + 1) <==> Bit(y, i + 1);
      }
      SameBits(x / 2, y / 2);
    }
  }

  /** `x & (1 << i)` is non-zero exactly when bit `i` is set. */
  lemma TestBit(x: nat, i: nat)
    ensures And(x, ShiftLeft(1, i)) != 0 <==> Bit(x, i)
  {
    var masked := And(x, ShiftLeft(1, i));
    forall j: nat ensures Bit(masked, j) <==> j == i && Bit(x, i) {
      BitAnd(x, ShiftLeft(1, i), j);
      BitShift(1, i, j);
      if j >= i { BitOne(j - i); }
    }
    if Bit(x, i) {
      BitZero(i);
      assert Bit(masked, i);
    } else {
      forall j: nat ensures Bit(masked, j) <==> Bit(0, j) { BitZero(j); }
      SameBits(masked, 0);
    }
  }

  /** A number without bits at or above `n` is below `2^n`. */
  lemma {:induction false} BoundedByBits(x: nat, n: nat)
    requires forall i: nat :: i >= n ==> !Bit(x, i)
    ensures x < ShiftLeft(1, n)
  {
    if n == 0 {
      forall i: nat ensures Bit(x, i) <==> Bit(0, i) { BitZero(i); }
      SameBits(x, 0);
    } else {
      forall i: nat | i >= n - 1 ensures !Bit(x / 2, i) { assert !Bit(x, i + 1); }
      BoundedByBits(x / 2, n - 1);
      ShiftDoubles(1, n);
    }
  }
}
