/**
 Unsigned machine words as natural numbers, with the bitwise operators of C defined on
 their binary digits.  A word of width w is a number below Pow2(w); `Bit(a, k)` is the C
 test `a & (1 << k)`.
 */
module Bits {

  function Pow2(n: nat): (p: nat)
    ensures p >= 1
  {
    if n == 0 then 1 else 2 * Pow2(n - 1)
  }

  predicate Bit(a: nat, k: nat) {
    if k == 0 then a % 2 == 1 else Bit(a / 2, k - 1)
  }

  // a & b
  function And(a: nat, b: nat): nat {
    if a == 0 || b == 0 then 0
    else 2 * And(a / 2, b / 2) + (if a % 2 == 1 && b % 2 == 1 then 1 else 0)
  }

  // a | b
  function Or(a: nat, b: nat): nat {
    if a == 0 then b
    else if b == 0 then a
    else 2 * Or(a / 2, b / 2) + (if a % 2 == 1 || b % 2 == 1 then 1 else 0)
  }

  // a & ~b
  function AndNot(a: nat, b: nat): nat {
    if a == 0 then 0
    else 2 * AndNot(a / 2, b / 2) + (if a % 2 == 1 && b % 2 == 0 then 1 else 0)
  }

  // a ^ b
  function Xor(a: nat, b: nat): nat
    decreases a + b
  {
    if a + b == 0 then 0
    else 2 * Xor(a / 2, b / 2) + (if a % 2 != b % 2 then 1 else 0)
  }

  // a >> k
  function Shr(a: nat, k: nat): nat {
    if k == 0 then a else Shr(a / 2, k - 1)
  }

  // The number of one bits.
  function PopCount(a: nat): nat {
    if a == 0 then 0 else a % 2 + PopCount(a / 2)
  }

  // `count` ones starting at bit `first`.
  function Run(first: nat, count: nat): nat {
    (Pow2(count) - 1) * Pow2(first)
  }

  lemma Doubled(q: nat, p: nat)
    ensures q * (2 * p) == 2 * (q * p)
  {
  }

  lemma RunShifted(first: nat, count: nat)
    requires first > 0
    ensures Run(first, count) == 2 * Run(first - 1, count)
  {
    Doubled(Pow2(count) - 1, Pow2(first - 1));
  }

  lemma RunFromZero(count: nat)
    requires count > 0
    ensures Run(0, count) == 2 * Run(0, count - 1) + 1
  {
    assert Pow2(0) == 1;
  }

  lemma {:induction false} BitOfZero(k: nat)
    ensures !Bit(0, k)
  {
    if k > 0 { BitOfZero(k - 1); }
  }

  lemma {:induction false} BitAnd(a: nat, b: nat, k: nat)
    ensures Bit(And(a, b), k) <==> Bit(a, k) && Bit(b, k)
  {
    if a == 0 || b == 0 {
      BitOfZero(k);
    } else if k > 0 {
      BitAnd(a / 2, b / 2, k - 1);
    }
  }

  lemma {:induction false} BitOr(a: nat, b: nat, k: nat)
    ensures Bit(Or(a, b), k) <==> Bit(a, k) || Bit(b, k)
  {
    if a == 0 || b == 0 {
      BitOfZero(k);
    } else if k > 0 {
      BitOr(a / 2, b / 2, k - 1);
    }
  }

  lemma {:induction false} BitAndNot(a: nat, b: nat, k: nat)
    ensures Bit(AndNot(a, b), k) <==> Bit(a, k) && !Bit(b, k)
  {
    if a == 0 {
      BitOfZero(k);
    } else if k > 0 {
      BitAndNot(a / 2, b / 2, k - 1);
    }
  }

  lemma BitOfDigit(a: nat, digit: nat, k: nat)
    requires digit <= 1
    ensures Bit(2 * a + digit, k) <==> if k == 0 then digit == 1 else Bit(a, k - 1)
  {
    assert (2 * a + digit) / 2 == a;
  }

  lemma {:induction false} BitRun(first: nat, count: nat, k: nat)
    ensures Bit(Run(first, count), k) <==> first <= k < first + count
  {
    if first > 0 {
      RunShifted(first, count);
      BitOfDigit(Run(first - 1, count), 0, k);
      if k > 0 { BitRun(first - 1, count, k - 1); }
    } else if count > 0 {
      RunFromZero(count);
      BitOfDigit(Run(0, count - 1), 1, k);
      if k > 0 { BitRun(0, count - 1, k - 1); }
    } else {
      BitOfZero(k);
    }
  }

  lemma {:induction false} AnyBit(a: nat) returns (k: nat)
    requires a > 0
    ensures Bit(a, k)
  {
    if a % 2 == 1 { k := 0; } else { k := AnyBit(a / 2); k := k + 1; }
  }

  // Masking with 2^width - 1 drops the bits from width up.
  lemma {:induction false} MaskBelow(a: nat, width: nat)
    ensures And(a, Pow2(width) - 1) < Pow2(width)
  {
    if a > 0 && width > 0 { MaskBelow(a / 2, width - 1); }
  }

  lemma {:induction false} MaskOneMore(a: nat, width: nat)
    requires a < 2 * Pow2(width)
    ensures And(a, Pow2(width) - 1) == if a < Pow2(width) then a else a - Pow2(width)
  {
    if a > 0 && width > 0 { MaskOneMore(a / 2, width - 1); }
  }

  // Words with the same bits are the same word.
  lemma {:induction false} Extensional(a: nat, b: nat)
    requires forall k: nat :: Bit(a, k) <==> Bit(b, k)
    ensures a == b
    decreases a + b
  {
    assert Bit(a, 0) <==> Bit(b, 0);
    if a + b > 0 {
      forall k: nat ensures Bit(a / 2, k) <==> Bit(b / 2, k) {
        assert Bit(a, k + 1) <==> Bit(b, k + 1);
      }
      Extensional(a / 2, b / 2);
    }
  }

  lemma PopCountDigit(a: nat, digit: nat)
    requires digit <= 1
    ensures PopCount(2 * a + digit) == PopCount(a) + digit
  {
    if 2 * a + digit > 0 { assert (2 * a + digit) / 2 == a; }
  }

  lemma PopCountHalf(a: nat)
    ensures PopCount(a) == PopCount(a / 2) + a % 2
  {
  }

  // The lowest digits of a | b and a & b.
  lemma LowDigits(a: nat, b: nat) returns (either: nat, both: nat)
    requires a > 0 && b > 0
    ensures either <= 1 && both <= 1 && either + both == a % 2 + b % 2
    ensures Or(a, b) == 2 * Or(a / 2, b / 2) + either
    ensures And(a, b) == 2 * And(a / 2, b / 2) + both
  {
    either := if a % 2 == 1 || b % 2 == 1 then 1 else 0;
    both := if a % 2 == 1 && b % 2 == 1 then 1 else 0;
  }

  // The lowest digit of a & ~b, beside that of a & b.
  lemma LowDifference(a: nat, b: nat) returns (only: nat, both: nat)
    requires a > 0
    ensures only <= 1 && both <= 1 && only + both == a % 2
    ensures AndNot(a, b) == 2 * AndNot(a / 2, b / 2) + only
    ensures And(a, b) == 2 * And(a / 2, b / 2) + both
  {
    only := if a % 2 == 1 && b % 2 == 0 then 1 else 0;
    both := if a % 2 == 1 && b % 2 == 1 then 1 else 0;
  }

  lemma {:induction false} PopCountOr(a: nat, b: nat)
    ensures PopCount(Or(a, b)) + PopCount(And(a, b)) == PopCount(a) + PopCount(b)
    decreases a
  {
    if a > 0 && b > 0 {
      var x, y := a / 2, b / 2;
      var either, both := LowDigits(a, b);
      PopCountDigit(Or(x, y), either);
      PopCountDigit(And(x, y), both);
      PopCountHalf(a);
      PopCountHalf(b);
      PopCountOr(x, y);
    }
  }

  lemma {:induction false} PopCountAndNot(a: nat, b: nat)
    ensures PopCount(AndNot(a, b)) + PopCount(And(a, b)) == PopCount(a)
  {
    if a > 0 {
      var x, y := a / 2, b / 2;
      var only, both := LowDifference(a, b);
      PopCountDigit(AndNot(x, y), only);
      PopCountDigit(And(x, y), both);
      PopCountHalf(a);
      PopCountAndNot(x, y);
    }
  }

  lemma {:induction false} PopCountRun(first: nat, count: nat)
    ensures PopCount(Run(first, count)) == count
    decreases first + count
  {
    if first > 0 {
      RunShifted(first, count);
      PopCountDigit(Run(first - 1, count), 0);
      PopCountRun(first - 1, count);
    } else if count > 0 {
      RunFromZero(count);
      PopCountDigit(Run(0, count - 1), 1);
      PopCountRun(0, count - 1);
    }
  }
}
