/** Go's bitwise `|` and `&` on k-bit unsigned integers, defined one bit at a
    time from the least significant bit. Masks with 2^j - 1 are written as
    `% 2^j` and shifts by j as `/ 2^j` or `* 2^j` elsewhere in the model. */
module Bits {
  import opened Common

  function Pow2(k: nat): (r: nat)
    ensures r >= 1
  {
    if k == 0 then 1 else 2 * Pow2(k - 1)
  }

  /** Bitwise OR of the low k bits of a and b. */
  function Or(a: nat, b: nat, k: nat): nat
  {
    if k == 0 then 0
    else 2 * Or(a / 2, b / 2, k - 1) + (if a % 2 == 1 || b % 2 == 1 then 1 else 0)
  }

  /** Bitwise AND of the low k bits of a and b. */
  function And(a: nat, b: nat, k: nat): nat
  {
    if k == 0 then 0
    else 2 * And(a / 2, b / 2, k - 1) + (if a % 2 == 1 && b % 2 == 1 then 1 else 0)
  }

  /** The OR of two k-bit values is a k-bit value at least as large as
      either. */
  lemma {:induction false} OrBounds(a: nat, b: nat, k: nat)
    requires a < Pow2(k) && b < Pow2(k)
    ensures Or(a, b, k) < Pow2(k) && a <= Or(a, b, k) && b <= Or(a, b, k)
  {
    if k > 0 {
      OrBounds(a / 2, b / 2, k - 1);
    }
  }

  /** The AND of two k-bit values is at most either. */
  lemma {:induction false} AndBounds(a: nat, b: nat, k: nat)
    requires a < Pow2(k) && b < Pow2(k)
    ensures And(a, b, k) <= a && And(a, b, k) <= b
  {
    if k > 0 {
      AndBounds(a / 2, b / 2, k - 1);
    }
  }

  lemma {:induction false} OrZero(a: nat, k: nat)
    requires a < Pow2(k)
    ensures Or(a, 0, k) == a
  {
    if k > 0 {
      OrZero(a / 2, k - 1);
    }
  }

  lemma {:induction false} Pow2Monotonic(j: nat, k: nat)
    requires j <= k
    ensures Pow2(j) <= Pow2(k)
  {
    if j < k {
      Pow2Monotonic(j, k - 1);
    }
  }

  /** OR-ing a value shifted left by w with a value below 2^w is addition:
      the two occupy disjoint bits. */
  lemma {:induction false} OrDisjoint(hi: nat, lo: nat, w: nat, k: nat)
    requires w <= k && lo < Pow2(w) && hi * Pow2(w) < Pow2(k)
    ensures lo < Pow2(k) && Or(hi * Pow2(w), lo, k) == hi * Pow2(w) + lo
  {
    Pow2Monotonic(w, k);
    if w == 0 {
      OrZero(hi, k);
    } else {
      var a := hi * Pow2(w);
      assert a == 2 * (hi * Pow2(w - 1));
      assert a / 2 == hi * Pow2(w - 1) && a % 2 == 0;
      assert hi * Pow2(w - 1) < Pow2(k - 1);
      OrDisjoint(hi, lo / 2, w - 1, k - 1);
    }
  }

  lemma {:induction false} AndZero(a: nat, k: nat)
    requires a < Pow2(k)
    ensures And(a, 0, k) == 0
  {
    if k > 0 {
      AndZero(a / 2, k - 1);
    }
  }

  /** AND with the all-ones k-bit value keeps the other operand. */
  lemma {:induction false} AndOnes(a: nat, k: nat)
    requires a < Pow2(k)
    ensures And(a, Pow2(k) - 1, k) == a
  {
    if k > 0 {
      assert (Pow2(k) - 1) / 2 == Pow2(k - 1) - 1 && (Pow2(k) - 1) % 2 == 1;
      AndOnes(a / 2, k - 1);
    }
  }

  lemma {:induction false} ZeroOr(b: nat, k: nat)
    requires b < Pow2(k)
    ensures Or(0, b, k) == b
  {
    if k > 0 {
      ZeroOr(b / 2, k - 1);
    }
  }

  lemma {:induction false} ZeroAnd(b: nat, k: nat)
    ensures And(0, b, k) == 0
  {
    if k > 0 {
      ZeroAnd(b / 2, k - 1);
    }
  }

  lemma Pow2Values()
    ensures Pow2(4) == 16 && Pow2(8) == 0x100 && Pow2(13) == 0x2000 && Pow2(16) == 0x1_0000
  {
    assert Pow2(4) == 16;
    assert Pow2(8) == 0x100;
    assert Pow2(13) == 0x2000;
  }

  /** Go's `a | b` on uint8. */
  function Or8(a: Byte, b: Byte): (r: Byte)
  {
    Pow2Values();
    OrBounds(a, b, 8);
    Or(a, b, 8)
  }

  /** Go's `a | b` on uint16. */
  function Or16(a: U16, b: U16): (r: U16)
  {
    Pow2Values();
    OrBounds(a, b, 16);
    Or(a, b, 16)
  }

  /** Go's `a & b` on uint8. */
  function And8(a: Byte, b: Byte): (r: Byte)
    ensures r <= a && r <= b
  {
    Pow2Values();
    AndBounds(a, b, 8);
    And(a, b, 8)
  }

  /** A uint8 whose high nibble is hi and low nibble lo. */
  lemma Or8Nibbles(hi: nat, lo: nat)
    requires hi < 16 && lo < 16
    ensures hi * 16 < 0x100 && Or8(hi * 16, lo) == hi * 16 + lo
  {
    Pow2Values();
    OrDisjoint(hi, lo, 4, 8);
  }

  /** A uint16 whose top three bits are hi and low thirteen bits lo. */
  lemma Or16FlagsOffset(hi: nat, lo: nat)
    requires hi < 8 && lo < 0x2000
    ensures hi * 0x2000 < 0x1_0000 && Or16(hi * 0x2000, lo) == hi * 0x2000 + lo
  {
    Pow2Values();
    OrDisjoint(hi, lo, 13, 16);
  }

  lemma And8Zero(a: Byte)
    ensures And8(a, 0) == 0
  {
    Pow2Values();
    AndZero(a, 8);
  }

  lemma And8Ones(a: Byte)
    ensures And8(a, 0xFF) == a
  {
    Pow2Values();
    AndOnes(a, 8);
  }

  lemma Zero8Or(b: Byte)
    ensures Or8(0, b) == b
  {
    Pow2Values();
    ZeroOr(b, 8);
  }

  lemma Zero8And(b: Byte)
    ensures And8(0, b) == 0
  {
    ZeroAnd(b, 8);
  }
}
