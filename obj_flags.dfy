/** The `_objFlags` bit set that engine objects (nodes and components) carry. */
module ObjFlags {

  type Flags = bv32

  // The bit positions come from the engine's object base class, which is not part of
  // this model; everything proved here depends only on these being distinct single bits.
  const Deactivating: Flags := 1 << 8
  const IsOnEnableCalled: Flags := 1 << 11
  const IsOnLoadCalled: Flags := 1 << 14
  const IsOnLoadStarted: Flags := 1 << 15

  /** `flags & bit` is truthy. */
  predicate Has(flags: Flags, bit: Flags) {
    flags & bit != 0
  }

  /** `flags |= bit`: the bit is set and every other bit is kept. */
  function With(flags: Flags, bit: Flags): (r: Flags)
    ensures Has(r, bit) || bit == 0
    ensures r & !bit == flags & !bit
  {
    flags | bit
  }

  /** `flags &= ~bit`: the bit is cleared and every other bit is kept. */
  function Without(flags: Flags, bit: Flags): (r: Flags)
    ensures !Has(r, bit)
    ensures r & !bit == flags & !bit
  {
    flags & !bit
  }

  /** The four flags this core uses are pairwise distinct single bits, so setting or
      clearing one of them never changes whether another one is set. */
  lemma Independent(flags: Flags, a: Flags, b: Flags)
    requires a in {Deactivating, IsOnEnableCalled, IsOnLoadCalled, IsOnLoadStarted}
    requires b in {Deactivating, IsOnEnableCalled, IsOnLoadCalled, IsOnLoadStarted}
    requires a != b
    ensures Has(With(flags, a), b) == Has(flags, b)
    ensures Has(Without(flags, a), b) == Has(flags, b)
  {
  }

  /** Clearing a bit that was just set on flags without it restores the flags. */
  lemma SetThenClear(flags: Flags, bit: Flags)
    requires !Has(flags, bit)
    ensures Without(With(flags, bit), bit) == flags
  {
  }

  /** Setting a bit that is already set changes nothing. */
  lemma SetTwice(flags: Flags, bit: Flags)
    ensures With(With(flags, bit), bit) == With(flags, bit)
  {
  }
}
