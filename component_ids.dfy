/**
 * Component-type ids: every component type is handed a stable integer id
 * from one shared counter the first time the type asks for it.  The
 * per-type `static int id` variables and the shared `nextId` counter are
 * gathered into one table object, which callers pass explicitly.
 */
module ComponentIds {

  /** The name of a component type (the template argument T of Component<T>). */
  type TypeName = string

  /** The transform component, required by both the collision and the render system. */
  const Transform: TypeName := "TransformComponent"

  class ComponentIdTable {
    /** The id each component type already received. */
    var ids: map<TypeName, nat>
    /** The shared counter: the id the next new type will receive. */
    var nextId: nat
    /** The component types in the order they first asked for an id. */
    ghost var order: seq<TypeName>

    /** Ids are handed out densely, 0, 1, 2, ..., in first-use order. */
    ghost predicate Valid()
      reads this
    {
      && nextId == |order|
      && (forall k :: 0 <= k < |order| ==> order[k] in ids && ids[order[k]] == k)
      && (forall t :: t in ids ==> ids[t] < |order| && order[ids[t]] == t)
    }

    /** The id `GetId(t)` returns when called in the current state. */
    function IdOf(t: TypeName): nat
      reads this
    {
      if t in ids then ids[t] else nextId
    }

    /** The id `GetId(t)` returns when called right after `GetId(first)`. */
    function IdAfter(first: TypeName, t: TypeName): nat
      reads this
    {
      if t in ids then ids[t]
      else if t == first || first in ids then nextId
      else nextId + 1
    }

    /** The table before any component type has asked for an id. */
    constructor ()
      ensures Valid()
      ensures ids == map[] && nextId == 0
    {
      ids := map[];
      nextId := 0;
      order := [];
    }

    /** Two distinct component types never share an id. */
    lemma Distinct(t: TypeName, u: TypeName)
      requires Valid()
      requires t in ids && u in ids && t != u
      ensures ids[t] != ids[u]
    {
      assert order[ids[t]] == t && order[ids[u]] == u;
    }

    /**
     * `Component<T>::GetID`: a type seen before gets its old id back and
     * nothing changes; a new type gets `nextId`, which is then bumped.
     */
    method GetId(t: TypeName) returns (id: nat)
      requires Valid()
      modifies this
      ensures Valid()
      ensures id == old(IdOf(t))
      ensures t in ids && ids[t] == id
      ensures old(t in ids) ==> ids == old(ids) && nextId == old(nextId) && order == old(order)
      ensures old(t !in ids) ==>
        ids == old(ids)[t := id] && nextId == old(nextId) + 1 && order == old(order) + [t]
      ensures forall u :: u in ids && u != t ==> ids[u] != id
    {
      if t in ids {
        id := ids[t];
      } else {
        id := nextId;
        ids := ids[t := id];
        order := order + [t];
        nextId := nextId + 1;
      }
      forall u | u in ids && u != t
        ensures ids[u] != id
      {
        Distinct(u, t);
      }
    }
  }
}
