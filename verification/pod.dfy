/** The plain-old-data allowlist and the sizes of its types.

    `Pod` is implemented for the twelve primitive numeric types and, for any
    `T: Pod`, for the arrays `[T; N]` with `N` from 0 to 32. Nothing here
    checks that these types really have no invalid bit pattern: the allowlist
    is a trust assertion, and the model only records which types it admits
    and how many bytes each occupies. */
module Pod {
  import Arith

  /** The target's pointer width, which fixes the size of `isize`/`usize`. */
  datatype PointerWidth = W16 | W32 | W64

  /** `size_of::<usize>()` */
  function UsizeBytes(w: PointerWidth): nat
  {
    match w
    case W16 => 2
    case W32 => 4
    case W64 => 8
  }

  /** `usize::MAX + 1`: the modulus of `usize` arithmetic. */
  function UsizeModulus(w: PointerWidth): (m: nat)
    ensures m > 1
  {
    match w
    case W16 => 0x1_0000
    case W32 => 0x1_0000_0000
    case W64 => 0x1_0000_0000_0000_0000
  }

  /** `isize::MAX`: the largest byte size an object or slice may have. */
  function IsizeMax(w: PointerWidth): (m: nat)
    ensures m < UsizeModulus(w)
  {
    UsizeModulus(w) / 2 - 1
  }

  /** The types the allowlist can name; `Array` with a length above 32 is
      representable here but not admitted. Floats are opaque 4- and 8-byte
      patterns: the cast never interprets them. */
  datatype PodType =
    | ISize | USize
    | I8 | U8 | I16 | U16 | I32 | U32 | I64 | U64
    | F32 | F64
    | Array(elem: PodType, len: nat)

  /** The largest array length the allowlist admits. */
  const MaxArrayLen: nat := 32

  /** The primitive at the bottom of a possibly nested array type. */
  function Base(t: PodType): (p: PodType)
    ensures !p.Array?
  {
    match t
    case Array(e, _) => Base(e)
    case _ => t
  }

  /** The array lengths met on the way from `t` down to its primitive,
      outermost first: `[[u8; 4]; 3]` gives `[3, 4]`. */
  function ArrayLengths(t: PodType): seq<nat>
  {
    match t
    case Array(e, n) => [n] + ArrayLengths(e)
    case _ => []
  }

  function Product(s: seq<nat>): nat
  {
    if |s| == 0 then 1 else s[0] * Product(s[1..])
  }

  /** `size_of` of a primitive type. */
  function PrimitiveSize(w: PointerWidth, p: PodType): nat
    requires !p.Array?
  {
    match p
    case ISize | USize => UsizeBytes(w)
    case I8 | U8 => 1
    case I16 | U16 => 2
    case I32 | U32 | F32 => 4
    case I64 | U64 | F64 => 8
  }

  /** `T: Pod`, by the two `impl_pod!` rules: every primitive, and `[T; N]`
      for `T: Pod` and `N` from 0 to 32. Equivalently, no array on the way
      down to the primitive is longer than 32. */
  function IsPod(t: PodType): (r: bool)
    ensures r <==> forall i :: 0 <= i < |ArrayLengths(t)| ==> ArrayLengths(t)[i] <= MaxArrayLen
  {
    match t
    case Array(e, n) =>
      assert ArrayLengths(t) == [n] + ArrayLengths(e);
      AllAtMostCons(n, ArrayLengths(e), MaxArrayLen);
      n <= MaxArrayLen && IsPod(e)
    case _ => true
  }

  /** Every entry of `[n] + ls` is at most `m` exactly when `n` and every
      entry of `ls` are. */
  lemma AllAtMostCons(n: nat, ls: seq<nat>, m: nat)
    ensures (forall i :: 0 <= i < |[n] + ls| ==> ([n] + ls)[i] <= m)
        <==> n <= m && forall k :: 0 <= k < |ls| ==> ls[k] <= m
  {
    if n <= m && forall k :: 0 <= k < |ls| ==> ls[k] <= m {
      forall i | 0 <= i < |[n] + ls|
        ensures ([n] + ls)[i] <= m
      {
        if i > 0 {
          assert ([n] + ls)[i] == ls[i - 1];
        }
      }
    }
    if forall i :: 0 <= i < |[n] + ls| ==> ([n] + ls)[i] <= m {
      assert ([n] + ls)[0] == n;
      forall k | 0 <= k < |ls|
        ensures ls[k] <= m
      {
        assert ([n] + ls)[k + 1] == ls[k];
      }
    }
  }

  /** `size_of::<T>()`: an array is its elements laid end to end, so a type
      occupies its primitive's size times the product of its array
      lengths. */
  function SizeOf(w: PointerWidth, t: PodType): (r: nat)
    ensures r == Product(ArrayLengths(t)) * PrimitiveSize(w, Base(t))
  {
    match t
    case Array(e, n) =>
      var r := n * SizeOf(w, e);
      assert Product(ArrayLengths(t)) == n * Product(ArrayLengths(e)) by {
        assert ArrayLengths(t)[1..] == ArrayLengths(e);
      }
      Arith.MulAssociative(n, Product(ArrayLengths(e)), PrimitiveSize(w, Base(e)));
      r
    case _ => PrimitiveSize(w, t)
  }

  /** Some array on the path from `t` down to its primitive has length 0. */
  predicate HasEmptyArray(t: PodType)
  {
    match t
    case Array(e, n) => n == 0 || HasEmptyArray(e)
    case _ => false
  }

  /** A type occupies no bytes exactly when an empty array occurs in it;
      every primitive occupies 1, 2, 4 or 8 bytes. */
  lemma {:induction false} SizeZeroIffEmptyArray(w: PointerWidth, t: PodType)
    ensures SizeOf(w, t) == 0 <==> HasEmptyArray(t)
    ensures !t.Array? ==> SizeOf(w, t) in {1, 2, 4, 8}
  {
    match t
    case Array(e, n) =>
      SizeZeroIffEmptyArray(w, e);
      if n != 0 && SizeOf(w, e) != 0 {
        Arith.MulPositive(n, SizeOf(w, e));
      }
    case _ =>
  }

  /** Zero-sized `Pod` types exist: `[T; 0]` is admitted for every `Pod` `T`. */
  lemma ZeroLengthArrayIsPod(w: PointerWidth, e: PodType)
    requires IsPod(e)
    ensures IsPod(Array(e, 0)) && SizeOf(w, Array(e, 0)) == 0
  {
  }

  /** The primitive sizes, as Rust lays them out. */
  lemma PrimitiveSizes(w: PointerWidth)
    ensures SizeOf(w, I8) == 1 && SizeOf(w, U8) == 1
    ensures SizeOf(w, I16) == 2 && SizeOf(w, U16) == 2
    ensures SizeOf(w, I32) == 4 && SizeOf(w, U32) == 4 && SizeOf(w, F32) == 4
    ensures SizeOf(w, I64) == 8 && SizeOf(w, U64) == 8 && SizeOf(w, F64) == 8
    ensures SizeOf(w, ISize) == SizeOf(w, USize) == UsizeBytes(w)
  {
  }
}
