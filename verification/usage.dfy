/** The memory usage hint and the order Rust derives for it. The enum is
    `#[repr(u8)]` with its variants in declaration order, and the two
    variants that carry an `Access` payload compare it by its bits. */
module MemoryUsage {
  import Flags

  datatype Usage =
    | GpuOnly                         // GPU: read + write, CPU: copy
    | Immutable                       // GPU: read, CPU: none
    | Dynamic                         // GPU: read, CPU: write
    | Persistent(access: Flags.Access) // GPU: read + write, CPU: as given
    | CpuOnly(access: Flags.Access)    // GPU: copy, CPU: as given

  datatype Ordering = Less | Equal | Greater

  function Reverse(o: Ordering): Ordering
  {
    match o
    case Less => Greater
    case Equal => Equal
    case Greater => Less
  }

  /** The variant's position in the declaration, which is its discriminant. */
  function Discriminant(u: Usage): (d: nat)
    ensures d < 5
  {
    match u
    case GpuOnly => 0
    case Immutable => 1
    case Dynamic => 2
    case Persistent(_) => 3
    case CpuOnly(_) => 4
  }

  /** `Ord::cmp` on unsigned integers: on the discriminants, and on the `u8`
      bits of an `Access`, whose derived order is the numeric one. */
  function CompareNat(x: nat, y: nat): (o: Ordering)
    ensures o == Equal <==> x == y
    ensures o == Less <==> x < y
  {
    if x < y then Less else if x == y then Equal else Greater
  }

  /** The sort key the derived order is lexicographic in: the discriminant,
      then the payload bits (zero for the variants without a payload). */
  function Key(u: Usage): (nat, bv8)
  {
    match u
    case Persistent(a) => (3, a)
    case CpuOnly(a) => (4, a)
    case _ => (Discriminant(u), 0)
  }

  predicate LexLess(x: (nat, bv8), y: (nat, bv8))
  {
    x.0 < y.0 || (x.0 == y.0 && x.1 < y.1)
  }

  /** The derived `Ord::cmp`: different variants compare by discriminant,
      equal payload variants compare their `Access` bits. It is the
      lexicographic order on `Key`, and reports `Equal` exactly for equal
      values. */
  function Compare(u: Usage, v: Usage): (o: Ordering)
    ensures o == Equal <==> u == v
    ensures o == Less <==> LexLess(Key(u), Key(v))
    ensures o == Greater <==> LexLess(Key(v), Key(u))
  {
    match (u, v)
    case (Persistent(a), Persistent(b)) => BitsOrder(a, b); BitsOrder(b, a); CompareNat(a as nat, b as nat)
    case (CpuOnly(a), CpuOnly(b)) => BitsOrder(a, b); BitsOrder(b, a); CompareNat(a as nat, b as nat)
    case _ => CompareNat(Discriminant(u), Discriminant(v))
  }

  /** `u < v` under the derived order: the key of `u` comes first. */
  function Lt(u: Usage, v: Usage): (r: bool)
    ensures r <==> LexLess(Key(u), Key(v))
  {
    Compare(u, v) == Less
  }

  /** Swapping the operands reverses the comparison. */
  lemma CompareAntisymmetric(u: Usage, v: Usage)
    ensures Compare(v, u) == Reverse(Compare(u, v))
  {
  }

  /** `Lt` is a strict total order: irreflexive, transitive, and any two
      values are equal or ordered one way, never both. */
  lemma LtIrreflexive(u: Usage)
    ensures !Lt(u, u)
  {
  }

  lemma LtTransitive(u: Usage, v: Usage, w: Usage)
    requires Lt(u, v) && Lt(v, w)
    ensures Lt(u, w)
  {
  }

  lemma LtTrichotomy(u: Usage, v: Usage)
    ensures Lt(u, v) || u == v || Lt(v, u)
    ensures !(Lt(u, v) && Lt(v, u))
  {
    CompareAntisymmetric(u, v);
  }

  /** The order follows the declaration:
      `GpuOnly < Immutable < Dynamic < Persistent(_) < CpuOnly(_)`. */
  lemma DeclarationOrder(a: Flags.Access, b: Flags.Access)
    ensures Lt(GpuOnly, Immutable)
    ensures Lt(Immutable, Dynamic)
    ensures Lt(Dynamic, Persistent(a))
    ensures Lt(Persistent(a), CpuOnly(b))
  {
  }

  /** Within a payload variant the `Access` bits decide. */
  lemma PayloadOrder(a: Flags.Access, b: Flags.Access)
    ensures Lt(Persistent(a), Persistent(b)) <==> a < b
    ensures Lt(CpuOnly(a), CpuOnly(b)) <==> a < b
  {
    BitsOrder(a, b);
  }

  /** The numeric order of `u8` bits is that of their values. */
  lemma BitsOrder(x: bv8, y: bv8)
    ensures x < y <==> (x as nat) < (y as nat)
  {
  }

  /** The payload of the two access-carrying variants is kept unchanged. */
  lemma PayloadPreserved(a: Flags.Access, b: Flags.Access)
    ensures Persistent(a).access == a && CpuOnly(a).access == a
    ensures Persistent(a) == Persistent(b) <==> a == b
    ensures CpuOnly(a) == CpuOnly(b) <==> a == b
    ensures Persistent(a) != CpuOnly(b)
  {
  }
}
