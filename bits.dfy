/** Fixed-width bit patterns: an unsigned word of width w is a nat below Pow2(w),
    and Xor is the bitwise exclusive-or of two such words, bit by bit from the
    least significant bit upwards. */
module Bits {

  function Pow2(n: nat): (r: nat)
    ensures r > 0
  {
    if n == 0 then 1 else 2 * Pow2(n - 1)
  }

  lemma {:induction false} Pow2Add(m: nat, n: nat)
    ensures Pow2(m + n) == Pow2(m) * Pow2(n)
  {
    if n > 0 {
      Pow2Add(m, n - 1);
    }
  }

  /** 2^31, the magnitude of `i32::MIN`. */
  lemma Pow2Of31()
    ensures Pow2(31) == 2147483648
  {
    assert Pow2(8) == 256 && Pow2(7) == 128;
    Pow2Add(8, 8);
    Pow2Add(16, 8);
    Pow2Add(24, 7);
  }

  /** Bitwise exclusive-or of the low w bits of a and b; the result is a w-bit word. */
  function Xor(w: nat, a: nat, b: nat): (r: nat)
    ensures r < Pow2(w)
  {
    if w == 0 then 0
    else (if a % 2 == b % 2 then 0 else 1) + 2 * Xor(w - 1, a / 2, b / 2)
  }

  /** Every w-bit word is rebuilt from its lowest bit and the rest. */
  lemma Halve(w: nat, a: nat)
    requires 0 < w && a < Pow2(w)
    ensures a / 2 < Pow2(w - 1) && a == a % 2 + 2 * (a / 2)
  {
  }

  /** XOR with the same mask twice gives the word back. */
  lemma {:induction false} XorInvolutive(w: nat, a: nat, m: nat)
    requires a < Pow2(w)
    ensures Xor(w, Xor(w, a, m), m) == a
  {
    if w > 0 {
      var x := Xor(w, a, m);
      var y := Xor(w - 1, a / 2, m / 2);
      assert x % 2 == (if a % 2 == m % 2 then 0 else 1) && x / 2 == y;
      Halve(w, a);
      XorInvolutive(w - 1, a / 2, m / 2);
    }
  }

  /** The XOR of two words is the zero word exactly when the words are equal. */
  lemma {:induction false} XorZeroIff(w: nat, a: nat, b: nat)
    requires a < Pow2(w) && b < Pow2(w)
    ensures Xor(w, a, b) == 0 <==> a == b
  {
    if w > 0 {
      Halve(w, a);
      Halve(w, b);
      XorZeroIff(w - 1, a / 2, b / 2);
    }
  }

  /** XOR with the all-zero mask is the identity. */
  lemma {:induction false} XorAllZeros(w: nat, a: nat)
    requires a < Pow2(w)
    ensures Xor(w, a, 0) == a
  {
    if w > 0 {
      Halve(w, a);
      XorAllZeros(w - 1, a / 2);
    }
  }

  /** XOR with the all-ones mask is the complement. */
  lemma {:induction false} XorAllOnes(w: nat, a: nat)
    requires a < Pow2(w)
    ensures Xor(w, a, Pow2(w) - 1) == Pow2(w) - 1 - a
  {
    if w > 0 {
      Halve(w, a);
      XorAllOnes(w - 1, a / 2);
    }
  }

  /** XOR with the top bit alone moves a word by half the range, up or down. */
  lemma {:induction false} XorTopBit(w: nat, a: nat)
    requires 0 < w && a < Pow2(w)
    ensures Xor(w, a, Pow2(w - 1)) ==
            if a < Pow2(w - 1) then a + Pow2(w - 1) else a - Pow2(w - 1)
  {
    if w == 1 {
      assert Pow2(0) == 1;
    } else {
      Halve(w, a);
      XorTopBit(w - 1, a / 2);
    }
  }

  /** XOR with every bit but the top one mirrors a word within its half of the range. */
  lemma {:induction false} XorLowBits(w: nat, a: nat)
    requires 0 < w && a < Pow2(w)
    ensures Xor(w, a, Pow2(w - 1) - 1) ==
            if a < Pow2(w - 1) then Pow2(w - 1) - 1 - a else Pow2(w) + Pow2(w - 1) - 1 - a
  {
    if w == 1 {
      XorAllZeros(1, a);
    } else {
      Halve(w, a);
      XorLowBits(w - 1, a / 2);
    }
  }
}
