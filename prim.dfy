/** The primitive integer types `u8` … `u128`, `usize`, `i8` … `i128`, `isize`:
    their ranges, their two's-complement bit patterns, the `^` operator on them
    and their total order. Values of a primitive type are the mathematical
    integers in its range. */
module Prim {
  import opened Bits

  /** The widths Rust provides; pointer-sized types are fixed at 64 bits. */
  type Width = w: nat | w == 8 || w == 16 || w == 32 || w == 64 || w == 128 witness 8

  datatype IntType = IntType(bits: Width, signed: bool)

  const U8 := IntType(8, false)
  const U16 := IntType(16, false)
  const U32 := IntType(32, false)
  const U64 := IntType(64, false)
  const U128 := IntType(128, false)
  const Usize := IntType(64, false)
  const I8 := IntType(8, true)
  const I16 := IntType(16, true)
  const I32 := IntType(32, true)
  const I64 := IntType(64, true)
  const I128 := IntType(128, true)
  const Isize := IntType(64, true)

  /** `$prim::MIN` */
  function MinInt(p: IntType): int {
    if p.signed then -(Pow2(p.bits - 1) as int) else 0
  }

  /** `$prim::MAX` */
  function MaxInt(p: IntType): int {
    if p.signed then Pow2(p.bits - 1) - 1 else Pow2(p.bits) - 1
  }

  predicate InRange(p: IntType, i: int) {
    MinInt(p) <= i <= MaxInt(p)
  }

  /** Two's-complement bit pattern of a value of type p. */
  function ToBits(p: IntType, i: int): (b: nat)
    requires InRange(p, i)
    ensures b < Pow2(p.bits)
    ensures i >= 0 ==> b == i
  {
    if i < 0 then i + Pow2(p.bits) else i
  }

  /** The value of type p whose bit pattern is b. */
  function FromBits(p: IntType, b: nat): (i: int)
    requires b < Pow2(p.bits)
    ensures InRange(p, i)
    ensures b < Pow2(p.bits - 1) ==> i == b
  {
    if p.signed && b >= Pow2(p.bits - 1) then b - Pow2(p.bits) else b
  }

  /** Bit patterns and values are in one-to-one correspondence. */
  lemma BitsRoundTrip(p: IntType, i: int, b: nat)
    requires InRange(p, i) && b < Pow2(p.bits)
    ensures FromBits(p, ToBits(p, i)) == i
    ensures ToBits(p, FromBits(p, b)) == b
  {
  }

  /** `a ^ b` on type p: exclusive-or of the two's-complement patterns. */
  function BitXor(p: IntType, a: int, b: int): (r: int)
    requires InRange(p, a) && InRange(p, b)
    ensures InRange(p, r)
  {
    FromBits(p, Xor(p.bits, ToBits(p, a), ToBits(p, b)))
  }

  /** `(a ^ m) ^ m == a` */
  lemma BitXorInvolutive(p: IntType, a: int, m: int)
    requires InRange(p, a) && InRange(p, m)
    ensures BitXor(p, BitXor(p, a, m), m) == a
  {
    var x := Xor(p.bits, ToBits(p, a), ToBits(p, m));
    BitsRoundTrip(p, a, x);
    XorInvolutive(p.bits, ToBits(p, a), ToBits(p, m));
  }

  /** `a ^ m == 0` exactly when `a == m`. */
  lemma BitXorZeroIff(p: IntType, a: int, m: int)
    requires InRange(p, a) && InRange(p, m)
    ensures BitXor(p, a, m) == 0 <==> a == m
  {
    XorZeroIff(p.bits, ToBits(p, a), ToBits(p, m));
    BitsRoundTrip(p, a, Xor(p.bits, ToBits(p, a), ToBits(p, m)));
    BitsRoundTrip(p, m, 0);
  }

  /** Closed form of `a ^ u::MIN`, i.e. `a ^ 0`. */
  lemma BitXorUnsignedMin(p: IntType, a: int)
    requires !p.signed && InRange(p, a)
    ensures BitXor(p, a, MinInt(p)) == a
  {
    XorAllZeros(p.bits, a);
  }

  /** Closed form of `a ^ u::MAX`: the complement reverses the range. */
  lemma BitXorUnsignedMax(p: IntType, a: int)
    requires !p.signed && InRange(p, a)
    ensures BitXor(p, a, MaxInt(p)) == MaxInt(p) - a
  {
    XorAllOnes(p.bits, a);
  }

  /** Closed form of `a ^ i::MIN`: flipping the sign bit moves the non-negative
      values to the bottom of the range and the negative ones to the top. */
  lemma BitXorSignedMin(p: IntType, a: int)
    requires p.signed && InRange(p, a)
    ensures BitXor(p, a, MinInt(p)) == if a >= 0 then a + MinInt(p) else a - MinInt(p)
  {
    var h := Pow2(p.bits - 1);
    assert Pow2(p.bits) == 2 * h;
    assert ToBits(p, MinInt(p)) == h;
    XorTopBit(p.bits, ToBits(p, a));
  }

  /** Closed form of `a ^ i::MAX`: flipping every bit but the sign reverses the
      order within the non-negative values and within the negative ones. */
  lemma BitXorSignedMax(p: IntType, a: int)
    requires p.signed && InRange(p, a)
    ensures BitXor(p, a, MaxInt(p)) == if a >= 0 then MaxInt(p) - a else MinInt(p) - 1 - a
  {
    var h := Pow2(p.bits - 1);
    assert Pow2(p.bits) == 2 * h;
    XorLowBits(p.bits, ToBits(p, a));
  }

  /** Every supported type has at least 8 bits, so 123 and its neighbours are in range. */
  lemma {:induction false} WideEnough(p: IntType)
    ensures Pow2(p.bits - 1) >= 128
  {
    Pow2Grows(p.bits - 1);
  }

  lemma {:induction false} Pow2Grows(n: nat)
    requires n >= 7
    ensures Pow2(n) >= 128
  {
    if n > 7 {
      Pow2Grows(n - 1);
    }
  }

  /** `core::cmp::Ordering` */
  datatype Ordering = Less | Equal | Greater

  /** `Ord::cmp` on a primitive integer type: the numeric order. */
  function CmpInt(a: int, b: int): (o: Ordering)
    ensures o == Equal <==> a == b
    ensures o == Less <==> a < b
  {
    if a < b then Less else if a == b then Equal else Greater
  }
}
