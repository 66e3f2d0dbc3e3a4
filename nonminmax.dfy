/** The `impl_nontype!` macro: an integer of a primitive type that is never equal
    to one sentinel, the type's MIN or its MAX. The value v is stored as
    `v ^ sentinel` inside a `NonZero` field, so the sentinel would be stored as
    zero, which `NonZero` rules out. Each of the 24 instantiations of the macro
    is a `Kind`: the macro's `$prim` and `$mask` arguments. */
module NonMinMax {
  import opened Bits
  import opened Prim
  import opened Wrappers

  datatype Sentinel = Min | Max

  /** One instantiation `impl_nontype!($struct, $nonzero, $prim, $mask)`. */
  datatype Kind = Kind(prim: IntType, sentinel: Sentinel)

  const NonMaxU8 := Kind(U8, Max)
  const NonMaxU16 := Kind(U16, Max)
  const NonMaxU32 := Kind(U32, Max)
  const NonMaxU64 := Kind(U64, Max)
  const NonMaxU128 := Kind(U128, Max)
  const NonMaxUsize := Kind(Usize, Max)

  const NonMaxI8 := Kind(I8, Max)
  const NonMaxI16 := Kind(I16, Max)
  const NonMaxI32 := Kind(I32, Max)
  const NonMaxI64 := Kind(I64, Max)
  const NonMaxI128 := Kind(I128, Max)
  const NonMaxIsize := Kind(Isize, Max)

  const NonMinU8 := Kind(U8, Min)
  const NonMinU16 := Kind(U16, Min)
  const NonMinU32 := Kind(U32, Min)
  const NonMinU64 := Kind(U64, Min)
  const NonMinU128 := Kind(U128, Min)
  const NonMinUsize := Kind(Usize, Min)

  const NonMinI8 := Kind(I8, Min)
  const NonMinI16 := Kind(I16, Min)
  const NonMinI32 := Kind(I32, Min)
  const NonMinI64 := Kind(I64, Min)
  const NonMinI128 := Kind(I128, Min)
  const NonMinIsize := Kind(Isize, Min)

  /** `$mask`: `$prim::MAX` or `$prim::MIN`. */
  function Mask(k: Kind): (m: int)
    ensures InRange(k.prim, m)
    ensures forall v | InRange(k.prim, v) :: if k.sentinel == Max then v <= m else m <= v
  {
    if k.sentinel == Max then MaxInt(k.prim) else MinInt(k.prim)
  }

  /** `core::num::NonZeroX`: a value of the primitive type that is never zero. */
  type NonZero = n: int | n != 0 witness 1

  /** The generated `$struct`: its one field holds `v ^ $mask`. */
  datatype Nontype = Nontype(value: NonZero)

  /** The field is a value of the `$nonzero` type that belongs to `$prim`. */
  predicate Valid(k: Kind, x: Nontype) {
    InRange(k.prim, x.value)
  }

  /** `$struct::new_unchecked`: the caller promises `v != $mask`, which is exactly
      what `NonZero::new_unchecked` needs of `v ^ $mask`. */
  function NewUnchecked(k: Kind, v: int): (x: Nontype)
    requires InRange(k.prim, v) && v != Mask(k)
    ensures Valid(k, x) && Get(k, x) == v
  {
    BitXorZeroIff(k.prim, v, Mask(k));
    BitXorInvolutive(k.prim, v, Mask(k));
    Nontype(BitXor(k.prim, v, Mask(k)))
  }

  /** `$struct::new`: absent exactly for the sentinel, otherwise a value that decodes to v. */
  function New(k: Kind, v: int): (r: Option<Nontype>)
    requires InRange(k.prim, v)
    ensures r.None? <==> v == Mask(k)
    ensures r.Some? ==> Valid(k, r.value) && Get(k, r.value) == v
  {
    if v != Mask(k) then Some(NewUnchecked(k, v)) else None
  }

  /** `$struct::get`: undoes the XOR; never yields the sentinel. */
  function Get(k: Kind, x: Nontype): (v: int)
    requires Valid(k, x)
    ensures InRange(k.prim, v) && v != Mask(k)
  {
    BitXorInvolutive(k.prim, x.value, Mask(k));
    BitXorZeroIff(k.prim, Mask(k), Mask(k));
    BitXor(k.prim, x.value, Mask(k))
  }

  /** The stored field is the value XOR-ed with the sentinel. */
  lemma StoredIsEncoded(k: Kind, x: Nontype)
    requires Valid(k, x)
    ensures x.value == BitXor(k.prim, Get(k, x), Mask(k))
  {
    BitXorInvolutive(k.prim, x.value, Mask(k));
  }

  /** Every value of the type is what `new` builds from its decoded integer. */
  lemma NewGet(k: Kind, x: Nontype)
    requires Valid(k, x)
    ensures New(k, Get(k, x)) == Some(x)
  {
    StoredIsEncoded(k, x);
  }

  /** `impl From<$struct> for $prim`: the decoded integer, from which `new`
      rebuilds the same value. */
  function PrimFrom(k: Kind, x: Nontype): (v: int)
    requires Valid(k, x)
    ensures v == Get(k, x)
    ensures InRange(k.prim, v) && v != Mask(k)
    ensures New(k, v) == Some(x)
  {
    NewGet(k, x);
    Get(k, x)
  }

  /** The derived `PartialEq`/`Eq` compares the stored fields, which is equality of
      the decoded integers. */
  lemma EqIffGetEq(k: Kind, a: Nontype, b: Nontype)
    requires Valid(k, a) && Valid(k, b)
    ensures a == b <==> Get(k, a) == Get(k, b)
  {
    StoredIsEncoded(k, a);
    StoredIsEncoded(k, b);
  }

  /** The derived `Ord`/`PartialOrd`: compares the stored `NonZero` fields as
      integers of the primitive type. */
  function Cmp(a: Nontype, b: Nontype): (o: Ordering)
    ensures o == Equal <==> a == b
  {
    CmpInt(a.value, b.value)
  }

  /** A comparison by decoded integers, the order a user of the type expects. */
  function CmpDecoded(k: Kind, a: Nontype, b: Nontype): (o: Ordering)
    requires Valid(k, a) && Valid(k, b)
    ensures o == Equal <==> a == b
  {
    EqIffGetEq(k, a, b);
    CmpInt(Get(k, a), Get(k, b))
  }

  /** `CmpDecoded` orders the values built by `new` as their integers are ordered. */
  lemma CmpDecodedIsValueOrder(k: Kind, v: int, w: int)
    requires InRange(k.prim, v) && v != Mask(k)
    requires InRange(k.prim, w) && w != Mask(k)
    ensures New(k, v).Some? && New(k, w).Some?
    ensures CmpDecoded(k, New(k, v).value, New(k, w).value) == CmpInt(v, w)
  {
  }

  /** `NonMinU*` (mask 0): the derived order is the order of the decoded integers. */
  lemma CmpNonMinUnsigned(k: Kind, a: Nontype, b: Nontype)
    requires k.sentinel == Min && !k.prim.signed
    requires Valid(k, a) && Valid(k, b)
    ensures Cmp(a, b) == CmpDecoded(k, a, b)
  {
    StoredIsEncoded(k, a);
    StoredIsEncoded(k, b);
    BitXorUnsignedMin(k.prim, Get(k, a));
    BitXorUnsignedMin(k.prim, Get(k, b));
  }

  /** `NonMaxU*` (all-ones mask): the derived order is the reverse of the decoded order. */
  lemma CmpNonMaxUnsigned(k: Kind, a: Nontype, b: Nontype)
    requires k.sentinel == Max && !k.prim.signed
    requires Valid(k, a) && Valid(k, b)
    ensures Cmp(a, b) == CmpDecoded(k, b, a)
  {
    StoredIsEncoded(k, a);
    StoredIsEncoded(k, b);
    BitXorUnsignedMax(k.prim, Get(k, a));
    BitXorUnsignedMax(k.prim, Get(k, b));
  }

  /** `NonMinI*` (sign-bit mask): the derived order is the order of the decoded
      integers' bit patterns read as unsigned, so every negative value sorts
      above every non-negative one. */
  lemma CmpNonMinSigned(k: Kind, a: Nontype, b: Nontype)
    requires k.sentinel == Min && k.prim.signed
    requires Valid(k, a) && Valid(k, b)
    ensures Cmp(a, b) == CmpInt(ToBits(k.prim, Get(k, a)), ToBits(k.prim, Get(k, b)))
  {
    StoredIsEncoded(k, a);
    StoredIsEncoded(k, b);
    BitXorSignedMin(k.prim, Get(k, a));
    BitXorSignedMin(k.prim, Get(k, b));
  }

  /** `NonMaxI*` (every bit but the sign): the derived order reverses the decoded
      order between two values of the same sign and keeps it between values of
      opposite signs. */
  lemma CmpNonMaxSigned(k: Kind, a: Nontype, b: Nontype)
    requires k.sentinel == Max && k.prim.signed
    requires Valid(k, a) && Valid(k, b)
    ensures Cmp(a, b) ==
            if (Get(k, a) < 0) == (Get(k, b) < 0) then CmpDecoded(k, b, a) else CmpDecoded(k, a, b)
  {
    StoredIsEncoded(k, a);
    StoredIsEncoded(k, b);
    BitXorSignedMax(k.prim, Get(k, a));
    BitXorSignedMax(k.prim, Get(k, b));
  }

  /** Two values of one kind whose derived order differs from their decoded order. */
  predicate DerivedOrderDiffers(k: Kind, a: Nontype, b: Nontype) {
    Valid(k, a) && Valid(k, b) && Cmp(a, b) != CmpDecoded(k, a, b)
  }

  /** Of the four sentinel choices, only `NonMinU*` has a derived order that agrees
      with the decoded order; every other kind has a pair on which they differ. */
  lemma DerivedOrderAgreesIff(k: Kind)
    ensures (forall a, b | Valid(k, a) && Valid(k, b) :: Cmp(a, b) == CmpDecoded(k, a, b))
            <==> (k.sentinel == Min && !k.prim.signed)
  {
    var p := k.prim;
    WideEnough(p);
    if k.sentinel == Min && !p.signed {
      forall a, b | Valid(k, a) && Valid(k, b) ensures Cmp(a, b) == CmpDecoded(k, a, b) {
        CmpNonMinUnsigned(k, a, b);
      }
    } else {
      var lo, hi := if k.sentinel == Min then -1 else 0, if k.sentinel == Min then 0 else 1;
      var a, b := NewUnchecked(k, lo), NewUnchecked(k, hi);
      assert CmpDecoded(k, a, b) == Less;
      if k.sentinel == Max && !p.signed {
        CmpNonMaxUnsigned(k, a, b);
      } else if k.sentinel == Min {
        CmpNonMinSigned(k, a, b);
      } else {
        CmpNonMaxSigned(k, a, b);
      }
      assert DerivedOrderDiffers(k, a, b);
    }
  }

  /** `NonMaxU8::new(1)` sorts above `NonMaxU8::new(2)` under the derived order. */
  lemma NonMaxU8OrderReversed()
    ensures New(NonMaxU8, 1).Some? && New(NonMaxU8, 2).Some?
    ensures Cmp(New(NonMaxU8, 1).value, New(NonMaxU8, 2).value) == Greater
    ensures CmpDecoded(NonMaxU8, New(NonMaxU8, 1).value, New(NonMaxU8, 2).value) == Less
  {
    assert MaxInt(U8) == 255;
    var a, b := New(NonMaxU8, 1).value, New(NonMaxU8, 2).value;
    CmpNonMaxUnsigned(NonMaxU8, a, b);
  }

  /** The crate's `test_nontype!` test, instantiated for every type:
      `new(123)` round-trips and `new($mask)` is `None`. */
  lemma InstantiationTests(k: Kind)
    ensures InRange(k.prim, 123) && New(k, 123).Some? && Get(k, New(k, 123).value) == 123
    ensures New(k, Mask(k)) == None
  {
    WideEnough(k.prim);
  }

  /** The crate's front-page example: `NonMinI32::new(123).unwrap().get() == 123`
      and `NonMinI32::new(-2147483648) == None`. */
  lemma NonMinI32Example()
    ensures New(NonMinI32, 123).Some? && Get(NonMinI32, New(NonMinI32, 123).value) == 123
    ensures MinInt(I32) == -2147483648 && New(NonMinI32, -2147483648) == None
  {
    Pow2Of31();
    InstantiationTests(NonMinI32);
  }

  /** The values next to the sentinel are accepted and round-trip. */
  lemma NextToSentinel(k: Kind)
    ensures var v := if k.sentinel == Max then Mask(k) - 1 else Mask(k) + 1;
            InRange(k.prim, v) && New(k, v).Some? && Get(k, New(k, v).value) == v
  {
    WideEnough(k.prim);
  }
}
