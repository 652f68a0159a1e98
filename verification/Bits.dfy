/** Bitwise operators on natural numbers, read one binary digit at a time. */
module Bits {
  function Pow2(n: nat): (p: nat)
    ensures p >= 1
  {
    if n == 0 then 1 else 2 * Pow2(n - 1)
  }

  function Pow256(n: nat): (p: nat)
    ensures p >= 1
  {
    if n == 0 then 1 else 256 * Pow256(n - 1)
  }

  predicate Bit(b: nat, i: nat) {
    if i == 0 then b % 2 == 1 else Bit(b / 2, i - 1)
  }

  function Or(a: nat, b: nat): nat
    decreases a + b
  {
    if a == 0 then b else if b == 0 then a
    else (if a % 2 == 1 || b % 2 == 1 then 1 else 0) + 2 * Or(a / 2, b / 2)
  }

  lemma {:induction false} ZeroHasNoBits(i: nat)
    ensures !Bit(0, i)
  {
    if i > 0 { ZeroHasNoBits(i - 1); }
  }

  lemma {:induction false} BitOfOr(a: nat, b: nat, i: nat)
    ensures Bit(Or(a, b), i) <==> Bit(a, i) || Bit(b, i)
    decreases i
  {
    ZeroHasNoBits(i);
    if a != 0 && b != 0 && i > 0 {
      BitOfOr(a / 2, b / 2, i - 1);
      assert Or(a, b) / 2 == Or(a / 2, b / 2);
    }
  }

  lemma {:induction false} BitOfPow2(i: nat, j: nat)
    ensures Bit(Pow2(i), j) <==> i == j
  {
    if i == 0 {
      if j > 0 { ZeroHasNoBits(j - 1); }
    } else if j > 0 {
      BitOfPow2(i - 1, j - 1);
    }
  }

  /** Setting one binary digit. */
  lemma {:induction false} OrOneBit(a: nat, k: nat)
    ensures Or(a, Pow2(k)) == if Bit(a, k) then a else a + Pow2(k)
  {
    if a == 0 {
      ZeroHasNoBits(k);
    } else if k > 0 {
      OrOneBit(a / 2, k - 1);
    }
  }

  lemma {:induction false} OrBelow(a: nat, b: nat, n: nat)
    requires a < Pow2(n) && b < Pow2(n)
    ensures Or(a, b) < Pow2(n)
  {
    if a != 0 && b != 0 { OrBelow(a / 2, b / 2, n - 1); }
  }

  lemma {:induction false} Pow2Monotone(i: nat, j: nat)
    requires i <= j
    ensures Pow2(i) <= Pow2(j)
  {
    if i < j { Pow2Monotone(i, j - 1); }
  }

  lemma {:induction false} Pow2Sum(i: nat, j: nat)
    ensures Pow2(i + j) == Pow2(i) * Pow2(j)
  {
    if i > 0 { Pow2Sum(i - 1, j); }
  }

  /** Numbers with the same bits are equal. */
  lemma {:induction false} BitsDetermine(a: nat, b: nat)
    requires forall i: nat :: Bit(a, i) <==> Bit(b, i)
    ensures a == b
    decreases a + b
  {
    if a != b {
      forall i: nat ensures Bit(a / 2, i) <==> Bit(b / 2, i) {
        assert Bit(a, i + 1) == Bit(a / 2, i) && Bit(b, i + 1) == Bit(b / 2, i);
      }
      assert Bit(a, 0) == Bit(b, 0);
      BitsDetermine(a / 2, b / 2);
    }
  }

  ghost predicate BitSubset(s: nat, f: nat) {
    forall i: nat :: Bit(s, i) ==> Bit(f, i)
  }

  /** `f | s == f` is the subset test on the digits. */
  lemma OrAbsorbs(f: nat, s: nat)
    ensures Or(f, s) == f <==> BitSubset(s, f)
  {
    forall i: nat ensures Or(f, s) == f && Bit(s, i) ==> Bit(f, i) { BitOfOr(f, s, i); }
    if BitSubset(s, f) {
      forall i: nat ensures Bit(Or(f, s), i) <==> Bit(f, i) { BitOfOr(f, s, i); }
      BitsDetermine(Or(f, s), f);
    }
  }

  /** A number below `2^n` has no digit at or above position `n`. */
  lemma {:induction false} HighBitsClear(b: nat, n: nat, i: nat)
    requires b < Pow2(n) && n <= i
    ensures !Bit(b, i)
  {
    if n == 0 { ZeroHasNoBits(i); } else { HighBitsClear(b / 2, n - 1, i - 1); }
  }

  /** `2^n - 1` has every digit below position `n`. */
  lemma {:induction false} LowBitsSet(n: nat, i: nat)
    requires i < n
    ensures Bit(Pow2(n) - 1, i)
  {
    if i > 0 { LowBitsSet(n - 1, i - 1); }
  }
}
