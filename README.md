# nonminmax in Dafny

A model of the `nonminmax` crate: integer types `NonMaxX` / `NonMinX` that can hold
every value of the primitive type `X` except its MAX (resp. MIN). The single
macro `impl_nontype!` generates all 24 types. It stores a value `v` as `v ^ $mask`
inside a `core::num::NonZeroX` field, so the excluded sentinel `$mask` would be
stored as zero, which `NonZeroX` cannot hold. `get` applies the XOR again.

Layout of the project:

- `bits.dfy` (module `Bits`): unsigned words of width w as nats below `Pow2(w)`.
  `Xor` is bitwise exclusive-or, defined recursively bit by bit. Its laws are
  proved by induction on the width: it is self-inverse, it is zero only on equal
  words, and it has a closed form for each of the four mask shapes (all zeros,
  all ones, top bit only, all bits but the top one).
- `prim.dfy` (module `Prim`): the primitive types `u8` … `u128`, `usize` and
  `i8` … `i128`, `isize` (datatype `IntType`). It gives their `MIN`/`MAX`, the two's-complement bit
  pattern of a value, the `^` operator (`BitXor`) and `Ord::cmp` on integers
  (`CmpInt`). A value of a primitive type is the mathematical integer it denotes.
  So `i32::MIN` is `-2147483648`, with bit pattern `0x8000_0000`.
- `wrappers.dfy` (module `Wrappers`): `Option`.
- `nonminmax.dfy` (module `NonMinMax`): the macro itself.
  - A `Kind` is one instantiation: the `$prim` type and whether `$mask` is its
    MIN or its MAX. The 24 constants `NonMaxU8` … `NonMinIsize` are the
    instantiations at `src/lib.rs:172-198`.
  - `Nontype` is the generated struct with its `NonZero` field.
  - The model also holds `new`, `new_unchecked`, `get`, `From`, and the derived
    `PartialEq`/`Ord`, together with their laws.

The macro's type parameters become an explicit `Kind` argument. `Valid(k, x)`
says that the stored field is a value of `k`'s primitive type.

## Model

| member | source | states |
|---|---|---|
| `NonMinMax.Mask` | src/lib.rs:172-198 | the mask of each instantiation is a value of its type, and it is that type's largest (`MAX`) or smallest (`MIN`) value |
| `NonMinMax.New` | src/lib.rs:124-130 | `new(v)` is `None` exactly when `v == $mask`; otherwise it is `Some(x)` with a valid `x` and `x.get() == v` (round-trip) |
| `NonMinMax.NewUnchecked` | src/lib.rs:138-142 | under the precondition `v != $mask`, the stored `v ^ $mask` is non-zero and is valid for the type; this is the `NonZero::new_unchecked` obligation, discharged by the `NonZero` subset type. Also `get()` of the result is `v`, so the unchecked path agrees with the checked one |
| `NonMinMax.Get` | src/lib.rs:147-149 | `get()` returns a value of the primitive type that is never `$mask` |
| `NonMinMax.StoredIsEncoded` | src/lib.rs:139-148 | the stored field is `get() ^ $mask` |
| `NonMinMax.NewGet` | src/lib.rs:124-149 | every value of the type is what `new(x.get())` builds: `new` is onto, and `get` is its left inverse |
| `NonMinMax.PrimFrom` | src/lib.rs:152-156 | `From<$struct> for $prim` returns exactly `get()`: an in-range non-sentinel integer from which `new` rebuilds the same value |
| `NonMinMax.EqIffGetEq` | src/lib.rs:113-117 | the derived equality on the stored field holds iff the decoded values are equal |
| `NonMinMax.Cmp` | src/lib.rs:113-116 | the derived `Ord` compares the stored fields as integers; it is `Equal` exactly on equal values |
| `NonMinMax.CmpNonMinUnsigned` | src/lib.rs:186-191 | for `NonMinU*` (mask 0) the derived order is the order of `get()` |
| `NonMinMax.CmpNonMaxUnsigned` | src/lib.rs:172-177 | for `NonMaxU*` (all-ones mask) the derived order is the reverse of the order of `get()` |
| `NonMinMax.CmpNonMinSigned` | src/lib.rs:193-198 | for `NonMinI*` (mask `MIN`) the derived order is the unsigned order of the bit patterns of `get()`, so negative values sort above non-negative ones |
| `NonMinMax.CmpNonMaxSigned` | src/lib.rs:179-184 | for `NonMaxI*` (mask `MAX`) the derived order reverses the order of `get()` between values of the same sign and keeps it between values of opposite signs |
| `NonMinMax.DerivedOrderAgreesIff` | src/lib.rs:113-116 | the derived order agrees with the order of `get()` on all pairs of values if and only if the instantiation is a `NonMinU*` |
| `NonMinMax.NonMaxU8OrderReversed` | src/lib.rs:172 | `NonMaxU8::new(1)` compares `Greater` than `NonMaxU8::new(2)` under the derived order, while the decoded values compare `Less` |
| `NonMinMax.CmpDecoded` | src/lib.rs:147-149 | a comparison of the decoded values that is `Equal` exactly on equal values |
| `NonMinMax.CmpDecodedIsValueOrder` | src/lib.rs:124-149 | `CmpDecoded` orders values built by `new` exactly as their integers are ordered |
| `NonMinMax.InstantiationTests` | src/lib.rs:209-215 | for every instantiation, `new(123)` is `Some` and `get()` gives back 123, and `new($mask)` is `None` |
| `NonMinMax.NonMinI32Example` | src/lib.rs:11-17 | `NonMinI32::new(123).unwrap().get() == 123`; `i32::MIN` is `-2147483648` and `NonMinI32::new(-2147483648)` is `None` |
| `NonMinMax.NextToSentinel` | src/lib.rs:124-130 | the value next to the sentinel is accepted by `new` and round-trips through `get` |
| `Prim.BitXor` | src/lib.rs:139 | `a ^ b` on a primitive type yields a value of that type |
| `Prim.BitXorInvolutive` | src/lib.rs:148 | `(a ^ m) ^ m == a`, which is why `get` undoes the encoding |
| `Prim.BitXorZeroIff` | src/lib.rs:139 | `a ^ m == 0` exactly when `a == m`, which is why only the sentinel would be stored as zero |
| `Prim.BitXorUnsignedMin` | src/lib.rs:186 | `a ^ u::MIN == a` |
| `Prim.BitXorUnsignedMax` | src/lib.rs:172 | `a ^ u::MAX == u::MAX - a` |
| `Prim.BitXorSignedMin` | src/lib.rs:193 | `a ^ i::MIN` is `a + MIN` for non-negative `a` and `a - MIN` for negative `a` |
| `Prim.BitXorSignedMax` | src/lib.rs:179 | `a ^ i::MAX` is `MAX - a` for non-negative `a` and `MIN - 1 - a` for negative `a` |

## Left out

- Memory layout: the struct is `repr(transparent)`, and `Option<_>` and `Result<_, ()>` have the size of the primitive (src/lib.rs:20-52, 109-110, 218-221). These are compiler layout guarantees with no counterpart in the model.
- `fmt::Debug` and `fmt::Display` (src/lib.rs:158-168) delegate to the standard integer formatting, which is not part of this model.
- The derived `Hash` (src/lib.rs:113) delegates to the hasher. `Clone`/`Copy` are implicit, because Dafny datatypes are values.
- The `doc_comment!` macro and the generated documentation text (src/lib.rs:76-112).
- Calling `new_unchecked` with `$mask` is undefined behaviour in the source. The model makes it a violated precondition and gives it no behaviour.
- `usize`/`isize` are fixed at 64 bits. The platform-dependent width is not modelled, so `NonMaxUsize` is the same `Kind` as `NonMaxU64`.
- `NonZeroX` is modelled only as much as the crate uses it. `NonZero::new_unchecked` is the subset-type obligation `n != 0`, and `NonZero::get` is the field itself. `NonZero::new` is never called by the crate.
- The type is documented as an integer of `$prim` that cannot be one value, so users expect it to order by value. The code derives `Ord` over the stored field (src/lib.rs:113). `Cmp` models the derived order as written, and `CmpDecoded` is the order by decoded value (see ## Findings).

## Findings

| source | as written | input that shows it | evidently intended | confidence | as-written member | corrected member |
|---|---|---|---|---|---|---|
| src/lib.rs:113 | `Ord`/`PartialOrd` are derived, so they compare the stored `value ^ $mask` field | `NonMaxU8::new(1)` compares greater than `NonMaxU8::new(2)`. Likewise `NonMinI8::new(-1) > NonMinI8::new(0)` and `NonMaxI8::new(0) > NonMaxI8::new(1)` | compare by `get()`, as the wrapped integers compare; only the `NonMinU*` types get this from the derive | medium; not executed | `NonMinMax.NonMaxU8OrderReversed` | `NonMinMax.CmpDecoded` |
