/** A `u8`-backed flag word, as the `bitflags!` macro generates it for the
    memory descriptors: flags are combined with `|`, intersected with `&`,
    and checked for containment with `(a & b) == b`.

    Every operation is stated against an independent reading of the word:
    `Decode(x)`, the eight yes/no answers to "is bit i set?". */
module BitFlags {

  /** One yes/no answer per bit of a `u8` flag word, lowest bit first. */
  datatype Bits = Bits(b0: bool, b1: bool, b2: bool, b3: bool, b4: bool, b5: bool, b6: bool, b7: bool)
  {
    /** The flags held by either side. */
    function Or(o: Bits): Bits
    {
      Bits(b0 || o.b0, b1 || o.b1, b2 || o.b2, b3 || o.b3, b4 || o.b4, b5 || o.b5, b6 || o.b6, b7 || o.b7)
    }

    /** The flags held by both sides. */
    function And(o: Bits): Bits
    {
      Bits(b0 && o.b0, b1 && o.b1, b2 && o.b2, b3 && o.b3, b4 && o.b4, b5 && o.b5, b6 && o.b6, b7 && o.b7)
    }

    /** Every flag held here is held by `o`. */
    predicate SubsetOf(o: Bits)
    {
      (b0 ==> o.b0) && (b1 ==> o.b1) && (b2 ==> o.b2) && (b3 ==> o.b3)
      && (b4 ==> o.b4) && (b5 ==> o.b5) && (b6 ==> o.b6) && (b7 ==> o.b7)
    }
  }

  /** `empty()`: the flag word with no bit set. */
  const Empty: bv8 := 0

  /** The flags `x` stands for. */
  function Decode(x: bv8): Bits
  {
    Bits(x & 0x01 != 0, x & 0x02 != 0, x & 0x04 != 0, x & 0x08 != 0,
         x & 0x10 != 0, x & 0x20 != 0, x & 0x40 != 0, x & 0x80 != 0)
  }

  /** A flag word is determined by the flags it holds. */
  lemma DecodeInjective(x: bv8, y: bv8)
    requires Decode(x) == Decode(y)
    ensures x == y
  {
  }

  /** The empty word holds no flag. */
  lemma EmptyHoldsNothing()
    ensures Decode(Empty) == Bits(false, false, false, false, false, false, false, false)
  {
  }

  /** `a | b`: the flags held by either operand. */
  function Union(a: bv8, b: bv8): (r: bv8)
    ensures Decode(r) == Decode(a).Or(Decode(b))
  {
    a | b
  }

  /** `a & b`: the flags held by both operands. */
  function Intersection(a: bv8, b: bv8): (r: bv8)
    ensures Decode(r) == Decode(a).And(Decode(b))
  {
    a & b
  }

  /** `a.contains(b)`: every flag of `b` is held by `a`. */
  function Contains(a: bv8, b: bv8): (r: bool)
    ensures r <==> Decode(b).SubsetOf(Decode(a))
  {
    a & b == b
  }

  /** The union of a whole list of flag words, as `a | b | c | ...` writes
      it: it contains every word of the list. */
  function UnionAll(cs: seq<bv8>): (r: bv8)
    ensures forall k :: 0 <= k < |cs| ==> Contains(r, cs[k])
  {
    if |cs| == 0 then Empty
    else
      var rest := UnionAll(cs[1..]);
      var r := Union(cs[0], rest);
      assert forall k :: 0 <= k < |cs| ==> Contains(r, cs[k]) by {
        forall k | 0 <= k < |cs|
          ensures Contains(r, cs[k])
        {
          if k == 0 {
            UnionContainsLeft(cs[0], rest);
          } else {
            assert cs[k] == cs[1..][k - 1];
            UnionContainsRight(cs[0], rest, cs[k]);
          }
        }
      }
      r
  }

  lemma UnionContainsLeft(a: bv8, b: bv8)
    ensures Contains(Union(a, b), a)
  {
  }

  lemma UnionContainsRight(a: bv8, b: bv8, c: bv8)
    requires Contains(b, c)
    ensures Contains(Union(a, b), c)
  {
  }

  /** ... and it is the least such word: a union of words that all lie inside
      `mask` lies inside `mask`. */
  lemma {:induction false} UnionAllWithin(cs: seq<bv8>, mask: bv8)
    requires forall k :: 0 <= k < |cs| ==> Contains(mask, cs[k])
    ensures Contains(mask, UnionAll(cs))
  {
    if |cs| > 0 {
      assert forall k :: 0 <= k < |cs| - 1 ==> cs[1..][k] == cs[k + 1];
      UnionAllWithin(cs[1..], mask);
      UnionWithin(mask, cs[0], UnionAll(cs[1..]));
    }
  }

  /** A word that contains both operands contains their union. */
  lemma UnionWithin(mask: bv8, a: bv8, b: bv8)
    requires Contains(mask, a) && Contains(mask, b)
    ensures Contains(mask, Union(a, b))
  {
  }

  lemma UnionCommutative(a: bv8, b: bv8)
    ensures Union(a, b) == Union(b, a)
  {
  }

  lemma UnionAssociative(a: bv8, b: bv8, c: bv8)
    ensures Union(Union(a, b), c) == Union(a, Union(b, c))
  {
  }

  lemma UnionIdempotent(a: bv8)
    ensures Union(a, a) == a
  {
  }

  lemma IntersectionCommutative(a: bv8, b: bv8)
    ensures Intersection(a, b) == Intersection(b, a)
  {
  }

  lemma IntersectionAssociative(a: bv8, b: bv8, c: bv8)
    ensures Intersection(Intersection(a, b), c) == Intersection(a, Intersection(b, c))
  {
  }

  lemma IntersectionIdempotent(a: bv8)
    ensures Intersection(a, a) == a
  {
  }
}
