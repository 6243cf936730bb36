/** The two flag sets of the memory descriptors: `Access` (CPU read/write
    capability) and `Bind` (what a resource may be bound for). Both are `u8`
    flag words; a value of either type only ever arises as a union of the
    declared constants, so its bits stay inside the union of all of them. */
module Flags {
  import BitFlags

  /** `Access::READ` */
  const READ: bv8 := 0x1
  /** `Access::WRITE` */
  const WRITE: bv8 := 0x2
  /** `Access::RW` */
  const RW: bv8 := 0x3

  const AccessConstants: seq<bv8> := [READ, WRITE, RW]

  /** `Access::all()`: every declared `Access` bit (see `AllMasks`). */
  const AccessAll: bv8 := 0x3

  /** An `Access` value: a flag word with no bit outside `AccessAll`. */
  type Access = a: bv8 | BitFlags.Contains(AccessAll, a)

  /** `Bind::RENDER_TARGET` */
  const RENDER_TARGET: bv8 := 0x1
  /** `Bind::DEPTH_STENCIL` */
  const DEPTH_STENCIL: bv8 := 0x2
  /** `Bind::SHADER_RESOURCE` */
  const SHADER_RESOURCE: bv8 := 0x4
  /** `Bind::UNORDERED_ACCESS` */
  const UNORDERED_ACCESS: bv8 := 0x8

  const BindConstants: seq<bv8> := [RENDER_TARGET, DEPTH_STENCIL, SHADER_RESOURCE, UNORDERED_ACCESS]

  /** `Bind::all()`: every declared `Bind` bit (see `AllMasks`). */
  const BindAll: bv8 := 0xF

  /** A `Bind` value: a flag word with no bit outside `BindAll`. */
  type Bind = b: bv8 | BitFlags.Contains(BindAll, b)

  /** The named full-access constant is exactly read together with write. */
  lemma RwIsReadUnionWrite()
    ensures RW == BitFlags.Union(READ, WRITE)
    ensures RW != READ && RW != WRITE
  {
  }

  /** `all()` is the union of the declared constants: `0x3` for `Access`,
      `0xF` for `Bind`. */
  lemma AllMasks()
    ensures BitFlags.Union(BitFlags.Union(READ, WRITE), RW) == AccessAll
    ensures BitFlags.Union(BitFlags.Union(BitFlags.Union(RENDER_TARGET, DEPTH_STENCIL), SHADER_RESOURCE),
                           UNORDERED_ACCESS) == BindAll
  {
  }

  /** Any union of `Access` constants stays within `0x3`. */
  lemma AccessUnionsStayInMask(cs: seq<bv8>)
    requires forall k :: 0 <= k < |cs| ==> cs[k] in AccessConstants
    ensures BitFlags.Contains(AccessAll, BitFlags.UnionAll(cs))
  {
    assert BitFlags.Contains(AccessAll, READ) && BitFlags.Contains(AccessAll, WRITE) && BitFlags.Contains(AccessAll, RW);
    BitFlags.UnionAllWithin(cs, AccessAll);
  }

  /** Any union of `Bind` constants stays within `0xF`. */
  lemma BindUnionsStayInMask(cs: seq<bv8>)
    requires forall k :: 0 <= k < |cs| ==> cs[k] in BindConstants
    ensures BitFlags.Contains(BindAll, BitFlags.UnionAll(cs))
  {
    assert BitFlags.Contains(BindAll, RENDER_TARGET) && BitFlags.Contains(BindAll, DEPTH_STENCIL);
    assert BitFlags.Contains(BindAll, SHADER_RESOURCE) && BitFlags.Contains(BindAll, UNORDERED_ACCESS);
    BitFlags.UnionAllWithin(cs, BindAll);
  }

  /** `Access` values are closed under union and intersection. */
  lemma AccessClosed(a: Access, b: Access)
    ensures BitFlags.Contains(AccessAll, BitFlags.Union(a, b))
    ensures BitFlags.Contains(AccessAll, BitFlags.Intersection(a, b))
  {
    assert BitFlags.Contains(AccessAll, a) && BitFlags.Contains(AccessAll, b);
  }

  /** `Bind` values are closed under union and intersection. */
  lemma BindClosed(a: Bind, b: Bind)
    ensures BitFlags.Contains(BindAll, BitFlags.Union(a, b))
    ensures BitFlags.Contains(BindAll, BitFlags.Intersection(a, b))
  {
    assert BitFlags.Contains(BindAll, a) && BitFlags.Contains(BindAll, b);
  }

  /** The `Access` bit space is covered by the named values: every `Access`
      is empty, `READ`, `WRITE` or `RW`, so no invalid combination exists. */
  lemma EveryAccessIsNamed(a: bv8)
    ensures BitFlags.Contains(AccessAll, a) <==> a in {BitFlags.Empty, READ, WRITE, RW}
  {
  }

  /** Every `Bind` value is the union of the named constants it contains, and
      each of those intersections is either empty or the constant itself:
      every subset of the four flags is a valid `Bind`, and nothing else is. */
  lemma EveryBindIsNamedSubset(b: bv8)
    ensures BitFlags.Contains(BindAll, b) <==>
      b == BitFlags.Union(BitFlags.Union(BitFlags.Union(
             BitFlags.Intersection(b, RENDER_TARGET), BitFlags.Intersection(b, DEPTH_STENCIL)),
             BitFlags.Intersection(b, SHADER_RESOURCE)), BitFlags.Intersection(b, UNORDERED_ACCESS))
    ensures BitFlags.Intersection(b, RENDER_TARGET) in {BitFlags.Empty, RENDER_TARGET}
    ensures BitFlags.Intersection(b, DEPTH_STENCIL) in {BitFlags.Empty, DEPTH_STENCIL}
    ensures BitFlags.Intersection(b, SHADER_RESOURCE) in {BitFlags.Empty, SHADER_RESOURCE}
    ensures BitFlags.Intersection(b, UNORDERED_ACCESS) in {BitFlags.Empty, UNORDERED_ACCESS}
  {
  }
}
