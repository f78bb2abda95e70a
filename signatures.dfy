/**
 * Signatures: the fixed-width (32-slot) bit set that records which component
 * types an entity has, and which component types a system requires.
 * Slot k of the bit set is modelled as membership of k in a set of naturals
 * below MaxComponents.
 */
module Signatures {

  /** Capacity of a signature (the width of the bit set). */
  const MaxComponents: nat := 32

  /** A signature: the set of component-type slots whose bit is on. */
  type Signature = s: set<nat> | forall c :: c in s ==> c < MaxComponents witness {}

  /** The empty signature (a default-constructed bit set). */
  const Empty: Signature := {}

  /** `test(slot)`: is the bit for `slot` on? */
  predicate Test(sig: Signature, slot: nat)
    ensures Test(sig, slot) ==> slot < MaxComponents
  {
    slot in sig
  }

  /** `set(slot)`: turns exactly the bit for `slot` on. */
  function Set(sig: Signature, slot: nat): (r: Signature)
    requires slot < MaxComponents
    ensures Test(r, slot)
    ensures forall c :: c != slot ==> (Test(r, c) <==> Test(sig, c))
  {
    sig + {slot}
  }

  /** `set(slot, false)`: turns exactly the bit for `slot` off. */
  function Reset(sig: Signature, slot: nat): (r: Signature)
    requires slot < MaxComponents
    ensures !Test(r, slot)
    ensures forall c :: c != slot ==> (Test(r, c) <==> Test(sig, c))
  {
    sig - {slot}
  }

  /** Setting a bit twice is the same as setting it once. */
  lemma SetIdempotent(sig: Signature, slot: nat)
    requires slot < MaxComponents
    ensures Set(Set(sig, slot), slot) == Set(sig, slot)
  {
  }

  /** Setting a bit that is already on changes nothing. */
  lemma SetPresent(sig: Signature, slot: nat)
    requires slot < MaxComponents && Test(sig, slot)
    ensures Set(sig, slot) == sig
  {
  }

  /** Clearing a bit that is already off changes nothing. */
  lemma ResetAbsent(sig: Signature, slot: nat)
    requires slot < MaxComponents && !Test(sig, slot)
    ensures Reset(sig, slot) == sig
  {
  }
}
