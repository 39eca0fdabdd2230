/** Bitwise operators on natural numbers, by their binary digits. */
module Bits {

  function Pow2(k: nat): (r: nat)
    ensures r >= 1
  {
    if k == 0 then 1 else 2 * Pow2(k - 1)
  }

  /** a & b */
  function And(a: nat, b: nat): nat {
    if a == 0 || b == 0 then 0 else 2 * And(a / 2, b / 2) + (a % 2) * (b % 2)
  }

  /** a | b */
  function Or(a: nat, b: nat): nat
    decreases a + b
  {
    if a == 0 then b
    else if b == 0 then a
    else 2 * Or(a / 2, b / 2) + (if a % 2 == 1 || b % 2 == 1 then 1 else 0)
  }

  /** Binary digit k of w. */
  predicate Bit(w: nat, k: nat) {
    if k == 0 then w % 2 == 1 else Bit(w / 2, k - 1)
  }

  lemma {:induction false} BitOfZero(k: nat)
    ensures !Bit(0, k)
  {
    if k > 0 { BitOfZero(k - 1); }
  }

  lemma {:induction false} BitOfAnd(a: nat, b: nat, k: nat)
    ensures Bit(And(a, b), k) <==> Bit(a, k) && Bit(b, k)
  {
    if a == 0 || b == 0 {
      BitOfZero(k);
    } else if k > 0 {
      BitOfAnd(a / 2, b / 2, k - 1);
    }
  }

  lemma {:induction false} BitOfOr(a: nat, b: nat, k: nat)
    ensures Bit(Or(a, b), k) <==> Bit(a, k) || Bit(b, k)
    decreases a + b
  {
    if a == 0 || b == 0 {
      BitOfZero(k);
    } else if k > 0 {
      BitOfOr(a / 2, b / 2, k - 1);
    }
  }

  lemma {:induction false} BitOfPow2(j: nat, k: nat)
    ensures Bit(Pow2(j), k) <==> j == k
  {
    if j == 0 && k > 0 {
      BitOfZero(k - 1);
    } else if j > 0 && k > 0 {
      BitOfPow2(j - 1, k - 1);
    }
  }

  /** A number below 2^n has no digit at or above n, and any other one has. */
  lemma {:induction false} HighBits(w: nat, n: nat, k: nat)
    requires w < Pow2(n) && n <= k
    ensures !Bit(w, k)
  {
    if n == 0 {
      BitOfZero(k);
    } else {
      HighBits(w / 2, n - 1, k - 1);
    }
  }

  lemma {:induction false} NonZeroHasBit(w: nat, n: nat) returns (k: nat)
    requires 0 < w < Pow2(n)
    ensures k < n && Bit(w, k)
  {
    if w % 2 == 1 {
      k := 0;
    } else {
      k := NonZeroHasBit(w / 2, n - 1);
      k := k + 1;
    }
  }

  /** w & (1 << k) is non-zero exactly when digit k of w is 1. */
  lemma {:induction false} TestBit(w: nat, k: nat)
    ensures And(w, Pow2(k)) != 0 <==> Bit(w, k)
  {
    if Bit(w, k) {
      BitOfPow2(k, k);
      BitOfAnd(w, Pow2(k), k);
      BitOfZero(k);
    } else if And(w, Pow2(k)) != 0 {
      AndBelow(w, Pow2(k));
      Pow2Increases(And(w, Pow2(k)));
      var j := NonZeroHasBit(And(w, Pow2(k)), And(w, Pow2(k)));
      BitOfAnd(w, Pow2(k), j);
      BitOfPow2(k, j);
    }
  }

  lemma {:induction false} Pow2Increases(n: nat)
    ensures n < Pow2(n)
  {
    if n > 0 { Pow2Increases(n - 1); }
  }

  lemma {:induction false} AndBelow(a: nat, b: nat)
    ensures And(a, b) <= a && And(a, b) <= b
  {
    if a != 0 && b != 0 { AndBelow(a / 2, b / 2); }
  }

  /** A number below 2^m and a multiple of 2^m share no digit. */
  lemma {:induction false} AndApart(a: nat, b: nat, m: nat)
    requires a < Pow2(m)
    ensures And(a, b * Pow2(m)) == 0
  {
    if a != 0 {
      assert b * Pow2(m) == 2 * (b * Pow2(m - 1));
      AndApart(a / 2, b, m - 1);
    }
  }

  lemma {:induction false} OrBelow(a: nat, b: nat, n: nat)
    requires a < Pow2(n) && b < Pow2(n)
    ensures Or(a, b) < Pow2(n)
  {
    if a != 0 && b != 0 { OrBelow(a / 2, b / 2, n - 1); }
  }

  lemma {:induction false} Pow2Monotone(j: nat, k: nat)
    requires j < k
    ensures 2 * Pow2(j) <= Pow2(k)
  {
    if j + 1 < k { Pow2Monotone(j, k - 1); }
  }

  /** Two words with the same digits are the same word. */
  lemma {:induction false} SameBits(a: nat, b: nat, n: nat)
    requires a < Pow2(n) && b < Pow2(n)
    requires forall k: nat | k < n :: Bit(a, k) == Bit(b, k)
    ensures a == b
  {
    if n > 0 {
      assert Bit(a, 0) == Bit(b, 0);
      forall k: nat | k < n - 1 ensures Bit(a / 2, k) == Bit(b / 2, k) {
        assert Bit(a, k + 1) == Bit(b, k + 1);
      }
      SameBits(a / 2, b / 2, n - 1);
    }
  }

  /** The mask 2^m - 1 has exactly the digits below m. */
  lemma {:induction false} BitOfMask(m: nat, k: nat)
    ensures Bit(Pow2(m) - 1, k) <==> k < m
  {
    if m == 0 {
      BitOfZero(k);
    } else {
      assert (Pow2(m) - 1) / 2 == Pow2(m - 1) - 1;
      if k > 0 { BitOfMask(m - 1, k - 1); }
    }
  }

  lemma Pow2Of32()
    ensures Pow2(32) == 0x1_0000_0000
  {
    assert Pow2(8) == 256;
    assert Pow2(16) == 65536;
    assert Pow2(24) == 0x100_0000;
  }
}
