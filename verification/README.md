# gfx core memory descriptors and `cast_slice`, in Dafny

This project models the memory module of the gfx core crate
(`src/core/src/memory.rs`). It covers four things:

- the `Usage` hint enum and the order Rust derives for it;
- the `Access` and `Bind` flag words generated by `bitflags!`;
- the `Pod` allowlist and the sizes of the types on it;
- `cast_slice::<A, B>`, which reinterprets a slice of one plain-old-data
  type as a slice of another over the same bytes.

Modules, one file each:

- `BitFlags` (`bitflags.dfy`): a `u8` flag word with union, intersection
  and containment. Each operation is stated against `Decode`, an
  independent bit-by-bit reading of the word.
- `Flags` (`flags.dfy`): the `Access` constants (`READ`, `WRITE`, `RW`)
  and the `Bind` constants (`RENDER_TARGET`, `DEPTH_STENCIL`,
  `SHADER_RESOURCE`, `UNORDERED_ACCESS`). Each flag type is a subset type
  of words with no bit outside the union of its constants.
- `MemoryUsage` (`usage.dfy`): `Usage`, the derived `Ord::cmp`, and its
  characterisation as the lexicographic order on (discriminant, payload
  bits).
- `Pod` (`pod.dfy`): the allowlist and `size_of`:
  - the twelve primitives;
  - `[T; N]` for `N` from 0 to 32;
  - `isize`/`usize` sized by a `PointerWidth` parameter (16, 32 or 64 bits).
- `Cast` (`cast.dfy`): `cast_slice` with its exact panics. A call returns
  an `Outcome`, which is either the new slice or the panic raised:
  - the division by a zero `size_of::<B>()`;
  - the `assert_eq!`, with the values of both sides.

  `Cast` also holds lemmas on the element-wise view of the result.
- `Arith` (`arith.dfy`): small lemmas about natural-number division and
  multiplication, used by `Cast`.

`usize::wrapping_mul` is modelled explicitly, as a product modulo
`usize::MAX + 1`. A slice is modelled as its element type, its element
count and its bytes. `Cast.ValidSlice` states the length facts a Rust
`&[T]` guarantees (alignment is not modelled):
- its bytes are `len` elements of `size_of::<T>()` bytes;
- `len` is a `usize`;
- the slice spans at most `isize::MAX` bytes.

Under those facts the first multiplication in `cast_slice` never wraps
(the contract of `Cast.ValidSlice`). The multiplication inside the `assert_eq!` never wraps either, for
any byte length (`Cast.CheckDoesNotWrap`).

Three consequences of the code are worth stating plainly:
- The allowlist admits `[T; 0]`, so a zero-sized `B` exists. Casting to
  it panics with a division by zero for every input, empty or not.
- Casting a slice to its own type is the identity only when that type is
  not zero-sized. A zero-sized type cast to itself panics.
- The `Access` payload of `Persistent` and `CpuOnly` may be empty. Nothing
  in the code forbids `Access::empty()`.

## Model

| member | source | states |
|---|---|---|
| BitFlags.Union | src/core/src/memory.rs:39-63 | the union of `a` and `b` holds exactly the flags held by either operand, bit by bit |
| BitFlags.Intersection | src/core/src/memory.rs:39-63 | `a & b` holds exactly the flags held by both operands |
| BitFlags.Contains | src/core/src/memory.rs:39-63 | `contains(a, b)` holds iff every flag of `b` is a flag of `a` |
| BitFlags.DecodeInjective | src/core/src/memory.rs:41 | a `u8` flag word is determined by the set of flags it holds |
| BitFlags.EmptyHoldsNothing | src/core/src/memory.rs:41 | the empty word holds no flag |
| BitFlags.UnionAll | src/core/src/memory.rs:39-63 | a union of several flag words contains each of them |
| BitFlags.UnionAllWithin | src/core/src/memory.rs:39-63 | the union of words that all lie inside a mask lies inside that mask, so it is the least word containing them all |
| BitFlags.UnionWithin | src/core/src/memory.rs:39-63 | a word containing both operands contains their union |
| BitFlags.UnionCommutative | src/core/src/memory.rs:39-63 | union of flags is commutative |
| BitFlags.UnionAssociative | src/core/src/memory.rs:39-63 | union of flags is associative |
| BitFlags.UnionIdempotent | src/core/src/memory.rs:39-63 | a word united with itself is unchanged |
| BitFlags.IntersectionCommutative | src/core/src/memory.rs:39-63 | intersection of flags is commutative |
| BitFlags.IntersectionAssociative | src/core/src/memory.rs:39-63 | intersection of flags is associative |
| BitFlags.IntersectionIdempotent | src/core/src/memory.rs:39-63 | a word intersected with itself is unchanged |
| Flags.RwIsReadUnionWrite | src/core/src/memory.rs:43-47 | `RW` is exactly the union of `READ` and `WRITE` and differs from each alone |
| Flags.AllMasks | src/core/src/memory.rs:39-63 | the union of all `Access` constants is `0x3`, and of all `Bind` constants `0xF` |
| Flags.AccessUnionsStayInMask | src/core/src/memory.rs:43-47 | any union of any number of `Access` constants has no bit outside `0x3` |
| Flags.BindUnionsStayInMask | src/core/src/memory.rs:55-61 | any union of any number of `Bind` constants has no bit outside `0xF` |
| Flags.AccessClosed | src/core/src/memory.rs:39-49 | union and intersection of two `Access` values are `Access` values |
| Flags.BindClosed | src/core/src/memory.rs:51-63 | union and intersection of two `Bind` values are `Bind` values |
| Flags.EveryAccessIsNamed | src/core/src/memory.rs:43-47 | a word is a valid `Access` iff it is empty, `READ`, `WRITE` or `RW` |
| Flags.EveryBindIsNamedSubset | src/core/src/memory.rs:55-61 | a word is a valid `Bind` iff it is the union of the named constants it contains, and each constant is either wholly contained or absent |
| MemoryUsage.Discriminant | src/core/src/memory.rs:25-37 | each variant's `#[repr(u8)]` discriminant is its declaration position, one of the five values 0 to 4 |
| MemoryUsage.CompareNat | src/core/src/memory.rs:24 | the derived comparison of unsigned integers reports `Less` exactly when the left is smaller and `Equal` exactly when they are equal |
| MemoryUsage.Compare | src/core/src/memory.rs:24-37 | the derived `cmp` is the lexicographic order on (discriminant, payload bits): `Less` and `Greater` exactly when one key precedes the other, `Equal` exactly for equal values |
| MemoryUsage.Lt | src/core/src/memory.rs:24-37 | the derived `<` holds exactly when the (discriminant, payload bits) key of the left comes first |
| MemoryUsage.CompareAntisymmetric | src/core/src/memory.rs:24 | swapping the operands of the derived `cmp` reverses its result |
| MemoryUsage.LtIrreflexive | src/core/src/memory.rs:24 | no `Usage` is less than itself |
| MemoryUsage.LtTransitive | src/core/src/memory.rs:24-37 | the derived `<` is transitive |
| MemoryUsage.LtTrichotomy | src/core/src/memory.rs:24-37 | any two `Usage` values are equal or ordered one way, and never both ways |
| MemoryUsage.DeclarationOrder | src/core/src/memory.rs:26-37 | `GpuOnly < Immutable < Dynamic < Persistent(_) < CpuOnly(_)`, whatever the payloads |
| MemoryUsage.PayloadOrder | src/core/src/memory.rs:34-36 | two `Persistent` (or two `CpuOnly`) values compare as their `Access` bits do |
| MemoryUsage.PayloadPreserved | src/core/src/memory.rs:34-36 | the payload variants keep their `Access` unchanged and are distinct from each other |
| Pod.IsPod | src/core/src/memory.rs:83-91 | a type is on the allowlist exactly when no array on the way down to its primitive is longer than 32 |
| Pod.SizeOf | src/core/src/memory.rs:88-91 | a type occupies its primitive's size times the product of all array lengths met on the way down to it |
| Pod.SizeZeroIffEmptyArray | src/core/src/memory.rs:83-91 | an allowlisted type is zero-sized iff an empty array occurs in it; primitives occupy 1, 2, 4 or 8 bytes |
| Pod.ZeroLengthArrayIsPod | src/core/src/memory.rs:89-91 | `[T; 0]` is on the allowlist for every `Pod` `T`, and its size is 0 |
| Pod.PrimitiveSizes | src/core/src/memory.rs:88 | the sizes of the twelve primitive `Pod` types, with `isize`/`usize` following the pointer width |
| Cast.WrappingMul | src/core/src/memory.rs:97 | `wrapping_mul` yields a `usize`, and equals the true product when that product fits |
| Cast.CastLength | src/core/src/memory.rs:97-99 | the length arithmetic for arbitrary sizes and counts: a division-by-zero panic when `size_of::<B>()` is 0; otherwise success iff the wrapped byte length is a multiple of it; on failure the `assert_eq!` panic carries the byte length and its rounded-down multiple; on success the new count times `size_of::<B>()` is the byte length |
| Cast.CheckDoesNotWrap | src/core/src/memory.rs:99 | the multiplication in the `assert_eq!` never wraps: it gives the byte length rounded down to a multiple of `size_of::<B>()` |
| Cast.ValidSlice | src/core/src/memory.rs:97 | for a slice with the length facts of a `&[A]` the byte-length `wrapping_mul` does not wrap: it is the slice's byte length |
| Cast.CastSlice | src/core/src/memory.rs:94-103 | panics by division by zero iff `size_of::<B>()` is 0; otherwise returns iff the byte length is divisible by `size_of::<B>()`, else panics in `assert_eq!` with both sides; a returned slice has element type `B`, covers the same bytes, keeps the byte length and satisfies `ValidSlice` (element count, byte length and size bound; alignment is not modelled) |
| Cast.Chunks | src/core/src/memory.rs:101 | a slice's bytes cut into `count` elements of `size` bytes each |
| Cast.FlattenChunks | src/core/src/memory.rs:101 | the elements laid end to end give back the bytes they were cut from |
| Cast.ChunkAt | src/core/src/memory.rs:101 | element `j` is the `j`-th run of `size` bytes |
| Cast.CastViewsSameBytes | src/core/src/memory.rs:100-102 | the result of a successful cast has `len` elements of `size_of::<B>()` bytes whose concatenation is the source's bytes in order |
| Cast.CastElementAt | src/core/src/memory.rs:100-102 | element `j` of a successful cast is source bytes `j*size_of::<B>()` up to `(j+1)*size_of::<B>()` |
| Cast.CastToSelfIsIdentity | src/core/src/memory.rs:97-102 | casting a slice to its own non-zero-sized type returns the slice unchanged |
| Cast.CastRoundTrip | src/core/src/memory.rs:94-103 | casting a successful cast's result back to a non-zero-sized source type returns the original slice |
| Cast.CastToZeroSizedPanics | src/core/src/memory.rs:89-98 | `[T; 0]` is an admitted target and casting anything to it panics with a division by zero |
| Cast.CastZeroSizedToSelfPanics | src/core/src/memory.rs:97-98 | a zero-sized type cast to itself panics instead of being the identity |
| Cast.CastEmpty | src/core/src/memory.rs:97-101 | an empty slice cast to a non-zero-sized type returns an empty slice |
| Cast.FloatsToBytes | src/core/src/memory.rs:94-103 | four `f32` cast to `u8` give sixteen one-byte elements, element `j` being stored byte `j` |
| Cast.ArraysToLongs | src/core/src/memory.rs:94-103 | two `[i32; 4]` cast to `i64` give four elements over the same 32 bytes |
| Cast.FloatsToLongsPanics | src/core/src/memory.rs:97-99 | three `f32` cast to `u64` fail the assertion with sides 12 and 8 |

## Left out

- The `Typed` trait (lines 65-75) declares no behaviour, only a `Raw` associated type with a constructor and a getter. Its implementors live outside this module.
- Alignment: `slice::from_raw_parts` requires the pointer to be aligned for `B`, and `cast_slice` never checks this. The model has no addresses, so it cannot state the requirement or its violation.
- Pointers and lifetimes: the result borrows the input for the same lifetime. The model only says that the result covers the same bytes.
- Whether every bit pattern of an allowlisted type is valid is the unchecked safety promise of `unsafe trait Pod`. Bytes are kept uninterpreted, and floats in particular are opaque 4- and 8-byte patterns.
- Cast.ValidSlice: the cast lemmas require a well-formed slice, which is what the Rust type system guarantees of any `&[A]`. `Cast.CastLength` drops that requirement and covers the wrapped arithmetic for arbitrary sizes and counts.
- The remaining methods `bitflags!` generates (`bits`, `from_bits`, `from_bits_truncate`, `is_empty`, `is_all`, `insert`, `remove`, `toggle`, `-`, `^`, `!`) are not modelled. They are macro output outside this file; union, intersection and containment are the operations the descriptors use.
- The derived `Hash`, `Debug`, `Clone` and `Copy` have no behaviour worth stating.
- Pod.IsPod: admits array types of any total size, while rustc rejects a type larger than `isize::MAX` bytes at compile time. Such a type can never be the element of a non-empty slice, because `Cast.ValidSlice` bounds the byte length. It can still be named as the target `B`; the model then computes the cast as the code is written, a call rustc would refuse to compile.
- MemoryUsage.Compare: the derived order of a `bitflags` 0.7 struct is taken to be the numeric order of its `u8` field. The macro's expansion is not part of this model.
