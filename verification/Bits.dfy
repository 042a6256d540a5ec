/** Bitwise operations on two's-complement integers of unbounded width, for the shifts
    and masks the source applies to machine words. */
module Bits {
  import opened Arithmetic
  import opened NumberTheory

  function BitAnd(a: int, b: int): int
    decreases if a < 0 then -a else a
  {
    if a == 0 || b == 0 then 0
    else if a == -1 then b
    else if b == -1 then a
    else 2 * BitAnd(a / 2, b / 2) + (a % 2) * (b % 2)
  }

  function BitOr(a: int, b: int): (r: int)
    ensures a >= 0 && b >= 0 ==> r >= 0
    decreases if a < 0 then -a else a
  {
    if a == 0 then b
    else if b == 0 then a
    else if a == -1 || b == -1 then -1
    else 2 * BitOr(a / 2, b / 2) + if a % 2 == 1 || b % 2 == 1 then 1 else 0
  }

  /** `^a` */
  function BitNot(a: int): int {
    -a - 1
  }

  /** `a << k` without truncation. */
  function Shl(a: int, k: nat): int {
    a * Pow(2, k)
  }

  /** `a >> k` on a signed or unsigned word. */
  function Shr(a: int, k: nat): int {
    a / Pow(2, k)
  }

  /** Masking off the k low bits rounds down to a multiple of 2^k, negative numbers included. */
  lemma {:induction false} MaskLow(t: int, k: nat)
    ensures BitAnd(t, BitNot(Shl(1, k) - 1)) == Pow(2, k) * (t / Pow(2, k))
    decreases k
  {
    if k > 0 && t != 0 && t != -1 {
      var h := Pow(2, k - 1);
      MaskLow(t / 2, k - 1);
      AndEven(t, h);
      DoubleMultiple(t, h, BitAnd(t / 2, -h));
    } else if t == -1 {
      DivModUnique(-1, Pow(2, k), -1, Pow(2, k) - 1);
    }
  }

  lemma AndEven(t: int, h: int)
    requires h > 0 && t != 0 && t != -1
    ensures BitAnd(t, -(2 * h)) == 2 * BitAnd(t / 2, -h)
  {
    NegHalves(h);
  }

  /** Or-ing disjoint bit ranges adds them. */
  lemma {:induction false} OrDisjoint(a: nat, b: nat, k: nat)
    requires a < Pow(2, k)
    ensures BitOr(a, Shl(b, k)) == a + Shl(b, k)
    decreases k
  {
    if a != 0 && b != 0 {
      assert k > 0;
      var h := Pow(2, k - 1);
      assert Shl(b, k) == 2 * (b * h) by { assert b * (2 * h) == 2 * (b * h); }
      assert b * h > 0;
      OrDisjoint(a / 2, b, k - 1);
    }
  }
}
