/**
 * Entities: an entity is nothing but a numeric id; equality and ordering
 * compare ids only.
 */
module Entities {

  datatype Entity = Entity(id: int)

  /** `operator <`: orders entities by id (the order of the entity sets). */
  predicate Less(a: Entity, b: Entity) {
    a.id < b.id
  }

  /** `operator >`. */
  predicate Greater(a: Entity, b: Entity) {
    a.id > b.id
  }

  /**
   * Equality is equality of ids, `!=` is its negation, `>` is `<` reversed,
   * and `<` is a strict total order (as a std::set key requires).
   */
  lemma ComparisonsAgree(a: Entity, b: Entity, c: Entity)
    ensures (a == b) <==> a.id == b.id
    ensures (a != b) <==> !(a == b)
    ensures Greater(a, b) <==> Less(b, a)
    ensures !Less(a, a)
    ensures Less(a, b) && Less(b, c) ==> Less(a, c)
    ensures a == b || Less(a, b) || Less(b, a)
  {
  }
}
