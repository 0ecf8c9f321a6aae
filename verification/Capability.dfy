/** The 128-bit capability token and its rights mask. */
module Capabilities {
  import opened Bytes

  const NO_RIGHTS: bv16 := 0
  const GRANT: bv16 := 8

  /** The rights in both masks; named so that proofs can treat it as a black box. */
  function Common(a: bv16, b: bv16): bv16 {
    a & b
  }

  /** All rights of the mask `r` are in the mask `held`. */
  predicate Includes(held: bv16, r: bv16) {
    held & r == r
  }

  lemma IncludesIs(held: bv16, r: bv16)
    ensures Includes(held, r) == (Common(held, r) == r)
  {
  }

  /** Fields as the bit-field layout holds them: 48 + 16 + 16 + 48 bits. */
  datatype Capability = Capability(objectId: U48, rights: bv16, epoch: U16, generation: U48) {
    predicate Has(r: bv16) {
      Common(rights, r) == r
    }

    function Attenuate(r: bv16): Capability {
      Capability(objectId, Common(rights, r), epoch, generation)
    }

    /** Same object, epoch and generation as `c`, and no right that `c` lacks. */
    predicate DerivesFrom(c: Capability) {
      objectId == c.objectId && epoch == c.epoch && generation == c.generation && c.Has(rights)
    }
  }

  /** Storing 64-bit values in the narrower fields keeps their low bits. */
  function Mint(oid: Word, rights: bv16, epoch: U16, generation: Word): Capability {
    Capability(oid % 0x1_0000_0000_0000, rights, epoch, generation % 0x1_0000_0000_0000)
  }

  lemma CommonSelf(a: bv16, b: bv16)
    ensures Common(a, a) == a
    ensures Common(a, Common(a, b)) == Common(a, b)
  {
  }

  lemma CommonTransitive(a: bv16, b: bv16, c: bv16)
    requires Common(b, a) == a && Common(c, b) == b
    ensures Common(c, a) == a
  {
  }

  lemma DerivesReflexive(c: Capability)
    ensures c.DerivesFrom(c)
  {
    hide Common;
    CommonSelf(c.rights, 0);
  }

  lemma DerivesTransitive(a: Capability, b: Capability, c: Capability)
    requires a.DerivesFrom(b) && b.DerivesFrom(c)
    ensures a.DerivesFrom(c)
  {
    hide Common;
    CommonTransitive(a.rights, b.rights, c.rights);
  }

  lemma AttenuateDerives(c: Capability, r: bv16)
    ensures c.Attenuate(r).DerivesFrom(c)
    ensures c.Has(r) ==> c.Attenuate(r).rights == r
  {
    hide Common;
    CommonSelf(c.rights, r);
  }
}
