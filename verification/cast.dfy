/** `cast_slice::<A, B>`: reinterpret a slice of one `Pod` type as a slice
    of another over the same bytes, by length arithmetic alone.

    A slice is its element type, its element count and the bytes it covers.
    The cast computes the byte length with `usize` wrapping multiplication,
    divides it by `size_of::<B>()` (which panics when that size is 0),
    asserts that the quotient times `size_of::<B>()` gives the byte length
    back, and returns a view of the same bytes with the new count. */
module Cast {
  import opened Pod
  import opened Arith

  datatype Slice = Slice(elem: PodType, len: nat, bytes: seq<bv8>)

  /** The length facts a `&[T]` with `T: Pod` guarantees: the bytes are
      `len` elements of `size_of::<T>()` bytes, the count is a `usize`, and
      the whole slice spans at most `isize::MAX` bytes. Alignment is not
      part of the model. For such a slice the byte-length multiplication at
      the head of the cast does not wrap. */
  function ValidSlice(w: PointerWidth, s: Slice): (r: bool)
    ensures r ==> WrappingMul(w, SizeOf(w, s.elem), s.len) == |s.bytes|
  {
    && IsPod(s.elem)
    && s.len < UsizeModulus(w)
    && |s.bytes| == SizeOf(w, s.elem) * s.len
    && |s.bytes| <= IsizeMax(w)
  }

  /** Why a call panicked: the division by a zero `size_of::<B>()`, or the
      `assert_eq!` with the values of its two sides. */
  datatype Panic = DivideByZero | AssertEqFailed(left: int, right: int)

  datatype Outcome<T> = Returned(value: T) | Panicked(panic: Panic)

  /** `usize::wrapping_mul`: the product modulo `usize::MAX + 1`. */
  function WrappingMul(w: PointerWidth, x: nat, y: nat): (r: nat)
    ensures r < UsizeModulus(w)
    ensures x * y < UsizeModulus(w) ==> r == x * y
  {
    (x * y) % UsizeModulus(w)
  }

  /** The length arithmetic of `cast_slice` on the two element sizes and the
      source count: it returns the new count, or the panic it raises. */
  function CastLength(w: PointerWidth, sizeA: nat, len: nat, sizeB: nat): (r: Outcome<nat>)
    ensures sizeB == 0 ==> r == Panicked(DivideByZero)
    ensures sizeB > 0 ==> (r.Returned? <==> WrappingMul(w, sizeA, len) % sizeB == 0)
    ensures sizeB > 0 && r.Panicked? ==>
              var raw := WrappingMul(w, sizeA, len);
              r.panic == AssertEqFailed(raw, raw - raw % sizeB)
    ensures r.Returned? ==> sizeB * r.value == WrappingMul(w, sizeA, len)
    ensures r.Returned? ==> r.value <= WrappingMul(w, sizeA, len)
  {
    var rawLen := WrappingMul(w, sizeA, len);
    if sizeB == 0 then
      Panicked(DivideByZero)
    else
      var newLen := rawLen / sizeB;
      var check := WrappingMul(w, sizeB, newLen);
      CheckDoesNotWrap(w, rawLen, sizeB);
      QuotientFits(rawLen, sizeB);
      if rawLen == check then Returned(newLen) else Panicked(AssertEqFailed(rawLen, check))
  }

  /** The multiplication in the `assert_eq!` never wraps: it gives back the
      byte length rounded down to a multiple of the divisor. */
  lemma CheckDoesNotWrap(w: PointerWidth, rawLen: nat, sizeB: nat)
    requires sizeB > 0 && rawLen < UsizeModulus(w)
    ensures WrappingMul(w, sizeB, rawLen / sizeB) == rawLen - rawLen % sizeB
    ensures rawLen / sizeB <= rawLen
  {
    QuotientFits(rawLen, sizeB);
    DivMod(rawLen, sizeB);
  }

  /** `cast_slice::<A, B>(s)` with `A = s.elem`. */
  function CastSlice(w: PointerWidth, b: PodType, s: Slice): (r: Outcome<Slice>)
    requires ValidSlice(w, s) && IsPod(b)
    ensures SizeOf(w, b) == 0 ==> r == Panicked(DivideByZero)
    ensures r.Returned? <==> SizeOf(w, b) > 0 && |s.bytes| % SizeOf(w, b) == 0
    ensures SizeOf(w, b) > 0 && |s.bytes| % SizeOf(w, b) != 0 ==>
              r == Panicked(AssertEqFailed(|s.bytes|, |s.bytes| - |s.bytes| % SizeOf(w, b)))
    ensures r.Returned? ==>
              && r.value.elem == b
              && r.value.bytes == s.bytes
              && SizeOf(w, b) * r.value.len == SizeOf(w, s.elem) * s.len
              && ValidSlice(w, r.value)
  {
    match CastLength(w, SizeOf(w, s.elem), s.len, SizeOf(w, b))
    case Panicked(p) => Panicked(p)
    case Returned(len) => Returned(Slice(b, len, s.bytes))
  }

  /** The bytes of a list of elements, laid end to end. */
  function Flatten(es: seq<seq<bv8>>): seq<bv8>
  {
    if |es| == 0 then [] else es[0] + Flatten(es[1..])
  }

  /** The slice cut into its `count` elements of `size` bytes each. */
  function Chunks(bytes: seq<bv8>, size: nat, count: nat): (r: seq<seq<bv8>>)
    requires |bytes| == size * count
    ensures |r| == count
    ensures forall j :: 0 <= j < count ==> |r[j]| == size
    decreases count
  {
    if count == 0 then []
    else
      MulSucc(count, size);
      [bytes[..size]] + Chunks(bytes[size..], size, count - 1)
  }

  /** One step of `Chunks`: the first element, then the rest cut the same way. */
  lemma ChunksUnfold(bytes: seq<bv8>, size: nat, count: nat)
    requires |bytes| == size * count && count > 0
    ensures size <= |bytes| && |bytes[size..]| == size * (count - 1)
    ensures Chunks(bytes, size, count) == [bytes[..size]] + Chunks(bytes[size..], size, count - 1)
  {
    MulSucc(count, size);
  }

  lemma FlattenCons(x: seq<bv8>, xs: seq<seq<bv8>>)
    ensures Flatten([x] + xs) == x + Flatten(xs)
  {
    assert ([x] + xs)[1..] == xs;
  }

  /** Laid end to end, the elements give back the bytes they were cut from. */
  lemma {:induction false} FlattenChunks(bytes: seq<bv8>, size: nat, count: nat)
    requires |bytes| == size * count
    ensures Flatten(Chunks(bytes, size, count)) == bytes
    decreases count
  {
    if count > 0 {
      ChunksUnfold(bytes, size, count);
      var rest := bytes[size..];
      FlattenCons(bytes[..size], Chunks(rest, size, count - 1));
      FlattenChunks(rest, size, count - 1);
      assert bytes == bytes[..size] + rest;
    }
  }

  /** Element `j` is the `j`-th run of `size` bytes. */
  lemma {:induction false} ChunkAt(bytes: seq<bv8>, size: nat, count: nat, j: nat)
    requires |bytes| == size * count && j < count
    ensures j * size + size <= |bytes|
    ensures Chunks(bytes, size, count)[j] == bytes[j * size .. j * size + size]
    decreases j
  {
    ChunksUnfold(bytes, size, count);
    var rest := bytes[size..];
    if j == 0 {
      MulAtLeastOne(size, count);
    } else {
      ChunkAt(rest, size, count - 1, j - 1);
      var a, b := (j - 1) * size, j * size;
      assert b == a + size by {
        MulSucc(j, size);
      }
      assert rest[a .. a + size] == bytes[b .. b + size];
    }
  }

  /** The elements of a slice, each as its bytes. */
  function Elements(w: PointerWidth, s: Slice): seq<seq<bv8>>
    requires ValidSlice(w, s)
  {
    Chunks(s.bytes, SizeOf(w, s.elem), s.len)
  }

  /** A successful cast views the identical bytes: its elements, each
      `size_of::<B>()` bytes long, laid end to end are the source bytes in
      their stored order. */
  lemma CastViewsSameBytes(w: PointerWidth, b: PodType, s: Slice, t: Slice)
    requires ValidSlice(w, s) && IsPod(b)
    requires CastSlice(w, b, s) == Returned(t)
    ensures |Elements(w, t)| == t.len
    ensures forall j :: 0 <= j < t.len ==> |Elements(w, t)[j]| == SizeOf(w, b)
    ensures Flatten(Elements(w, t)) == s.bytes
  {
    FlattenChunks(t.bytes, SizeOf(w, b), t.len);
  }

  /** Element `j` of a successful cast is the `j`-th run of `size_of::<B>()`
      source bytes. */
  lemma CastElementAt(w: PointerWidth, b: PodType, s: Slice, t: Slice, j: nat)
    requires ValidSlice(w, s) && IsPod(b)
    requires CastSlice(w, b, s) == Returned(t) && j < t.len
    ensures j * SizeOf(w, b) + SizeOf(w, b) <= |s.bytes|
    ensures Elements(w, t)[j] == s.bytes[j * SizeOf(w, b) .. j * SizeOf(w, b) + SizeOf(w, b)]
  {
    CastResultShape(w, b, s, t);
    ChunkAt(t.bytes, SizeOf(w, b), t.len, j);
  }

  /** What a successful cast returns, restated for the lemmas about it. */
  lemma CastResultShape(w: PointerWidth, b: PodType, s: Slice, t: Slice)
    requires ValidSlice(w, s) && IsPod(b)
    requires CastSlice(w, b, s) == Returned(t)
    ensures t.elem == b && t.bytes == s.bytes && ValidSlice(w, t)
    ensures |t.bytes| == SizeOf(w, b) * t.len
  {
  }

  /** Casting a slice to its own non-zero-sized element type is the identity. */
  lemma CastToSelfIsIdentity(w: PointerWidth, s: Slice)
    requires ValidSlice(w, s) && SizeOf(w, s.elem) > 0
    ensures CastSlice(w, s.elem, s) == Returned(s)
  {
    var size := SizeOf(w, s.elem);
    assert |s.bytes| % size == 0 by {
      DivisionIsExact(|s.bytes|, size, s.len);
    }
    var r := CastSlice(w, s.elem, s);
    MulCancel(size, r.value.len, s.len);
  }

  /** Casting back undoes a successful cast, as long as the source element
      type is not zero-sized. */
  lemma CastRoundTrip(w: PointerWidth, b: PodType, s: Slice)
    requires ValidSlice(w, s) && IsPod(b) && SizeOf(w, s.elem) > 0
    requires CastSlice(w, b, s).Returned?
    ensures CastSlice(w, s.elem, CastSlice(w, b, s).value) == Returned(s)
  {
    var t := CastSlice(w, b, s).value;
    var size := SizeOf(w, s.elem);
    assert |t.bytes| % size == 0 by {
      DivisionIsExact(|s.bytes|, size, s.len);
    }
    var back := CastSlice(w, s.elem, t).value;
    MulCancel(size, back.len, s.len);
  }

  /** A cast to a zero-sized type panics for every input, empty or not. Such a
      type is reachable: `[T; 0]` is on the allowlist. */
  lemma CastToZeroSizedPanics(w: PointerWidth, e: PodType, s: Slice)
    requires ValidSlice(w, s) && IsPod(e)
    ensures IsPod(Array(e, 0))
    ensures CastSlice(w, Array(e, 0), s) == Panicked(DivideByZero)
  {
  }

  /** A zero-sized source type is no exception to the rule above: casting it
      to itself panics rather than returning the slice. */
  lemma CastZeroSizedToSelfPanics(w: PointerWidth, s: Slice)
    requires ValidSlice(w, s) && SizeOf(w, s.elem) == 0
    ensures CastSlice(w, s.elem, s) == Panicked(DivideByZero)
  {
  }

  /** An empty source with a non-zero-sized target type casts to an empty
      slice without panicking. */
  lemma CastEmpty(w: PointerWidth, b: PodType, s: Slice)
    requires ValidSlice(w, s) && IsPod(b) && SizeOf(w, b) > 0 && |s.bytes| == 0
    ensures CastSlice(w, b, s) == Returned(Slice(b, 0, []))
  {
  }

  /** Four `f32` (16 bytes) cast to `u8` give sixteen elements, each the
      corresponding stored byte. */
  lemma FloatsToBytes(w: PointerWidth, bytes: seq<bv8>)
    requires |bytes| == 16
    ensures CastSlice(w, U8, Slice(F32, 4, bytes)) == Returned(Slice(U8, 16, bytes))
    ensures forall j :: 0 <= j < 16 ==> Elements(w, Slice(U8, 16, bytes))[j] == [bytes[j]]
  {
    assert IsizeMax(w) >= 16;
    assert SizeOf(w, U8) == 1 && SizeOf(w, F32) == 4;
    forall j | 0 <= j < 16
      ensures Elements(w, Slice(U8, 16, bytes))[j] == [bytes[j]]
    {
      ChunkAt(bytes, 1, 16, j);
      assert bytes[j .. j + 1] == [bytes[j]];
    }
  }

  /** Two `[i32; 4]` (32 bytes) cast to `i64` give four elements. */
  lemma ArraysToLongs(w: PointerWidth, bytes: seq<bv8>)
    requires |bytes| == 32
    ensures var r := CastSlice(w, I64, Slice(Array(I32, 4), 2, bytes));
      r.Returned? && r.value.len == 4 && r.value.bytes == bytes
  {
    assert IsizeMax(w) >= 32;
    var r := CastSlice(w, I64, Slice(Array(I32, 4), 2, bytes));
    MulCancel(8, r.value.len, 4);
  }

  /** Three `f32` (12 bytes) cast to `u64` trip the assertion: 12 / 8 = 1
      and 8 * 1 is not 12. No truncated one-element view is returned. */
  lemma FloatsToLongsPanics(w: PointerWidth, bytes: seq<bv8>)
    requires |bytes| == 12
    ensures CastSlice(w, U64, Slice(F32, 3, bytes)) == Panicked(AssertEqFailed(12, 8))
  {
    assert IsizeMax(w) >= 12;
  }
}
