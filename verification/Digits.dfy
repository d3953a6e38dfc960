/**
 Numbers as strings of digits, lowest first: what shifting a field out of a word, or packing fields
 into one, means.
 */
module Digits {
  import opened Bits

  // v without its n lowest digits in base b.
  function Drop(v: nat, b: nat, n: nat): nat
    requires b > 0
  {
    if n == 0 then v else Drop(v, b, n - 1) / b
  }

  function Digit(v: nat, b: nat, n: nat): (r: nat)
    requires b > 0
    ensures r < b
  {
    Drop(v, b, n) % b
  }

  function Power(b: nat, n: nat): (r: nat)
    requires b > 0
    ensures r > 0
  {
    if n == 0 then 1 else b * Power(b, n - 1)
  }

  // The number with these digits.
  function Packed(digits: seq<nat>, b: nat): nat {
    if digits == [] then 0 else digits[0] + b * Packed(digits[1..], b)
  }

  ghost predicate AreDigits(digits: seq<nat>, b: nat) { forall i | 0 <= i < |digits| :: digits[i] < b }

  lemma {:induction false} DropFirst(v: nat, b: nat, n: nat)
    requires b > 0
    ensures Drop(v, b, n + 1) == Drop(v / b, b, n)
  {
    if n > 0 { DropFirst(v, b, n - 1); }
  }

  lemma Product(b: nat, x: nat, y: nat)
    requires x <= y
    ensures b * x <= b * y
  {
  }

  lemma HeadAndTail(head: nat, tail: nat, b: nat)
    requires head < b
    ensures (head + b * tail) / b == tail && (head + b * tail) % b == head
  {
    var v := head + b * tail;
    var q := v / b;
    assert v == b * q + v % b;
    if q < tail { Product(b, q + 1, tail); } else if tail < q { Product(b, tail + 1, q); }
  }

  /** The digits of a packed number are the ones that were packed. */
  lemma {:induction false} DigitOfPacked(digits: seq<nat>, b: nat, n: nat)
    requires b > 0 && AreDigits(digits, b) && n < |digits|
    ensures Digit(Packed(digits, b), b, n) == digits[n]
  {
    HeadAndTail(digits[0], Packed(digits[1..], b), b);
    if n > 0 {
      DropFirst(Packed(digits, b), b, n - 1);
      DigitOfPacked(digits[1..], b, n - 1);
    }
  }

  lemma Distribute(b: nat, p: nat, x: nat, w: nat)
    ensures b * (p + x * w) == b * p + x * (b * w)
  {
    assert b * (x * w) == x * (b * w);
  }

  lemma {:induction false} PackedAppend(digits: seq<nat>, b: nat, x: nat)
    requires b > 0
    ensures Packed(digits + [x], b) == Packed(digits, b) + x * Power(b, |digits|)
  {
    if digits == [] {
      assert digits + [x] == [x];
    } else {
      assert (digits + [x])[1..] == digits[1..] + [x];
      PackedAppend(digits[1..], b, x);
      Distribute(b, Packed(digits[1..], b), x, Power(b, |digits| - 1));
    }
  }

  lemma {:induction false} PackedBelow(digits: seq<nat>, b: nat)
    requires b > 0 && AreDigits(digits, b)
    ensures Packed(digits, b) < Power(b, |digits|)
  {
    if digits != [] {
      PackedBelow(digits[1..], b);
      Product(b, Packed(digits[1..], b) + 1, Power(b, |digits| - 1));
    }
  }

  // The n lowest bytes of v, lowest first.
  function Bytes(v: nat, n: nat): (r: seq<nat>)
    ensures |r| == n
  {
    if n == 0 then [] else [v % 256] + Bytes(v / 256, n - 1)
  }

  /** A number that fits in n bytes is recovered from them. */
  lemma {:induction false} PackedBytes(v: nat, n: nat)
    requires v < Power(256, n)
    ensures Packed(Bytes(v, n), 256) == v
  {
    if n > 0 { PackedBytes(v / 256, n - 1); }
  }

  lemma {:induction false} ByteAt(v: nat, n: nat, i: nat)
    requires i < n
    ensures Bytes(v, n)[i] == Digit(v, 256, i)
  {
    if i > 0 {
      DropFirst(v, 256, i - 1);
      ByteAt(v / 256, n - 1, i - 1);
    }
  }

  lemma {:induction false} Pow2Sum(j: nat, k: nat)
    ensures Pow2(j + k) == Pow2(j) * Pow2(k)
  {
    if j > 0 {
      Pow2Sum(j - 1, k);
    }
  }

  lemma {:induction false} PowerOfPower(k: nat, n: nat)
    ensures Power(Pow2(k), n) == Pow2(k * n)
    decreases n
  {
    if n > 0 {
      PowerOfPower(k, n - 1);
      Pow2Sum(k, k * (n - 1));
      assert k * n == k + k * (n - 1);
    }
  }

  lemma OrDoubled(a: nat, high: nat)
    ensures Or(a, 2 * high) == 2 * Or(a / 2, high) + a % 2
  {
  }

  /** An or with bits above the number is an addition. */
  lemma {:induction false} OrAbove(a: nat, x: nat, k: nat)
    requires a < Pow2(k)
    ensures Or(a, x * Pow2(k)) == a + x * Pow2(k)
  {
    if k > 0 {
      var high := x * Pow2(k - 1);
      OrAbove(a / 2, x, k - 1);
      Doubled(x, Pow2(k - 1));
      OrDoubled(a, high);
    }
  }

  /** or-ing the next field of k bits into a word appends a digit. */
  lemma OrDigit(digits: seq<nat>, x: nat, k: nat)
    requires AreDigits(digits, Pow2(k))
    ensures Or(Packed(digits, Pow2(k)), x * Pow2(k * |digits|)) == Packed(digits + [x], Pow2(k))
  {
    PackedBelow(digits, Pow2(k));
    PowerOfPower(k, |digits|);
    OrAbove(Packed(digits, Pow2(k)), x, k * |digits|);
    PackedAppend(digits, Pow2(k), x);
  }
}
