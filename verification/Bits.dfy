/** Bitwise AND and XOR on unbounded naturals, with the facts that let masks be
  * read as arithmetic: a mask splits at any bit boundary, a low mask is a
  * remainder, and XOR undoes itself. */
module Bits {

  function Pow2(k: nat): (p: nat)
    ensures p > 0
  {
    if k == 0 then 1 else 2 * Pow2(k - 1)
  }

  function And(x: nat, y: nat): nat
  {
    if x == 0 || y == 0 then 0
    else 2 * And(x / 2, y / 2) + (if x % 2 == 1 && y % 2 == 1 then 1 else 0)
  }

  function Xor(x: nat, y: nat): nat
    decreases x + y
  {
    if x == 0 && y == 0 then 0
    else 2 * Xor(x / 2, y / 2) + (if x % 2 != y % 2 then 1 else 0)
  }

  /** The bits of a non-empty word: its parity and its half. */
  lemma Halve(b: nat, c: nat)
    requires b < 2
    ensures (2 * c + b) / 2 == c && (2 * c + b) % 2 == b
  {
  }

  /** `(x << k) | b`, one bit at a time. */
  function Push(x: nat, k: nat, b: nat): nat
  {
    if k == 0 then x else 2 * Push(x, k - 1, b / 2) + b % 2
  }

  lemma {:induction false} PushIsShift(x: nat, k: nat, b: nat)
    requires b < Pow2(k)
    ensures Push(x, k, b) == Pow2(k) * x + b
  {
    if k > 0 {
      PushIsShift(x, k - 1, b / 2);
      assert 2 * (Pow2(k - 1) * x) == Pow2(k) * x;
    }
  }

  lemma {:induction false} AndPush(k: nat, x: nat, b: nat, y: nat, c: nat)
    ensures And(Push(x, k, b), Push(y, k, c)) == Push(And(x, y), k, And(b, c))
  {
    if k > 0 {
      AndPush(k - 1, x, b / 2, y, c / 2);
      AndOfDoubles(Push(x, k - 1, b / 2), b % 2, Push(y, k - 1, c / 2), c % 2);
      AndStep(b, c);
      Halve(if b % 2 == 1 && c % 2 == 1 then 1 else 0, And(b / 2, c / 2));
    }
  }

  lemma AndOfDoubles(u: nat, b: nat, v: nat, c: nat)
    requires b < 2 && c < 2
    ensures And(2 * u + b, 2 * v + c) == 2 * And(u, v) + (if b == 1 && c == 1 then 1 else 0)
  {
  }

  /** AND splits at any bit boundary. */
  lemma AndSplit(k: nat, x: nat, b: nat, y: nat, c: nat)
    requires b < Pow2(k) && c < Pow2(k)
    ensures And(Pow2(k) * x + b, Pow2(k) * y + c) == Pow2(k) * And(x, y) + And(b, c)
  {
    PushIsShift(x, k, b);
    PushIsShift(y, k, c);
    AndPush(k, x, b, y, c);
    AndBelow(b, c);
    PushIsShift(And(x, y), k, And(b, c));
  }

  lemma AndBelow(x: nat, y: nat)
    ensures And(x, y) <= x && And(x, y) <= y
  {
  }

  /** The defining equation of AND, also where an operand is zero. */
  lemma AndStep(x: nat, y: nat)
    ensures And(x, y) == 2 * And(x / 2, y / 2) + (if x % 2 == 1 && y % 2 == 1 then 1 else 0)
  {
  }

  lemma {:induction false} AndLowMask(k: nat, b: nat)
    requires b < Pow2(k)
    ensures And(b, Pow2(k) - 1) == b
  {
    if k > 0 {
      AndLowMask(k - 1, b / 2);
      assert (Pow2(k) - 1) / 2 == Pow2(k - 1) - 1 && (Pow2(k) - 1) % 2 == 1;
      AndStep(b, Pow2(k) - 1);
    }
  }

  /** `x & (2^k - 1)` keeps the low `k` bits. */
  lemma AndIsRemainder(k: nat, x: nat, b: nat)
    requires b < Pow2(k)
    ensures And(Pow2(k) * x + b, Pow2(k) - 1) == b
  {
    AndSplit(k, x, b, 0, Pow2(k) - 1);
    AndLowMask(k, b);
  }

  /** `x & (m << k)` clears the low `k` bits and masks the rest with `m`. */
  lemma AndHighMask(k: nat, x: nat, b: nat, m: nat)
    requires b < Pow2(k)
    ensures And(Pow2(k) * x + b, Pow2(k) * m) == Pow2(k) * And(x, m)
  {
    AndSplit(k, x, b, m, 0);
  }

  lemma {:induction false} XorCancels(x: nat, y: nat)
    ensures Xor(Xor(x, y), y) == x
    decreases x + y
  {
    if x + y > 0 {
      XorCancels(x / 2, y / 2);
      var bit := if x % 2 != y % 2 then 1 else 0;
      Halve(bit, Xor(x / 2, y / 2));
      XorStep(Xor(x, y), y);
    }
  }

  lemma XorStep(x: nat, y: nat)
    ensures Xor(x, y) == 2 * Xor(x / 2, y / 2) + (if x % 2 != y % 2 then 1 else 0)
  {
  }

  lemma {:induction false} XorBound(k: nat, x: nat, y: nat)
    requires x < Pow2(k) && y < Pow2(k)
    ensures Xor(x, y) < Pow2(k)
  {
    if k > 0 {
      XorBound(k - 1, x / 2, y / 2);
    }
  }

  lemma {:induction false} XorCommutes(x: nat, y: nat)
    ensures Xor(x, y) == Xor(y, x)
    decreases x + y
  {
    if x + y > 0 {
      XorCommutes(x / 2, y / 2);
    }
  }
}
