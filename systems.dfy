/**
 * Systems: a behaviour module's required signature and its roster, the
 * vector of entities it currently processes.
 */
module Systems {
  import opened Signatures
  import opened ComponentIds
  import opened Entities

  /** No entity occurs twice in the roster (entities are equal when their ids are). */
  predicate NoDuplicates(roster: seq<Entity>) {
    forall i, j :: 0 <= i < j < |roster| ==> roster[i] != roster[j]
  }

  /** The roster after an add: unchanged when the entity is present, otherwise extended at the end. */
  function Added(roster: seq<Entity>, e: Entity): seq<Entity> {
    if e in roster then roster else roster + [e]
  }

  /** The roster after erase(remove_if(.., == e)): every e dropped, the rest kept in order. */
  function Removed(roster: seq<Entity>, e: Entity): seq<Entity> {
    if roster == [] then []
    else
      var last := roster[|roster| - 1];
      Removed(roster[..|roster| - 1], e) + (if last == e then [] else [last])
  }

  /** Adding keeps the roster duplicate-free, and the entity is a member afterwards. */
  lemma AddedKeepsUnique(roster: seq<Entity>, e: Entity)
    requires NoDuplicates(roster)
    ensures NoDuplicates(Added(roster, e))
    ensures e in Added(roster, e)
    ensures Added(roster, e) == roster <==> e in roster
  {
  }

  /** Removal is done piecewise: removing from a concatenation removes from each part, so order is kept. */
  lemma {:induction false} RemovedConcat(a: seq<Entity>, b: seq<Entity>, e: Entity)
    ensures Removed(a + b, e) == Removed(a, e) + Removed(b, e)
  {
    if b == [] {
      assert a + b == a;
    } else {
      var b' := b[..|b| - 1];
      assert (a + b)[..|a + b| - 1] == a + b';
      RemovedConcat(a, b', e);
    }
  }

  /** Removal drops exactly the copies of e: the multiset of what remains is the old one without e. */
  lemma {:induction false} RemovedContents(roster: seq<Entity>, e: Entity)
    ensures multiset(Removed(roster, e)) == multiset(roster)[e := 0]
  {
    if roster != [] {
      var init := roster[..|roster| - 1];
      var last := roster[|roster| - 1];
      assert roster == init + [last];
      RemovedContents(init, e);
    }
  }

  /** Membership after removal: x stays exactly when it was there and is not e. */
  lemma RemovedMembers(roster: seq<Entity>, e: Entity, x: Entity)
    ensures x in Removed(roster, e) <==> x in roster && x != e
  {
    RemovedContents(roster, e);
    assert x in Removed(roster, e) <==> x in multiset(Removed(roster, e));
    assert x in roster <==> x in multiset(roster);
  }

  /** Removing an absent entity leaves the roster as it was. */
  lemma {:induction false} RemovedAbsent(roster: seq<Entity>, e: Entity)
    requires e !in roster
    ensures Removed(roster, e) == roster
  {
    if roster != [] {
      var init := roster[..|roster| - 1];
      assert roster == init + [roster[|roster| - 1]];
      RemovedAbsent(init, e);
    }
  }

  /** Removal keeps the roster duplicate-free. */
  lemma {:induction false} RemovedKeepsUnique(roster: seq<Entity>, e: Entity)
    requires NoDuplicates(roster)
    ensures NoDuplicates(Removed(roster, e))
  {
    if roster != [] {
      var init := roster[..|roster| - 1];
      var last := roster[|roster| - 1];
      assert last !in init;
      RemovedKeepsUnique(init, e);
      RemovedMembers(init, e, last);
    }
  }

  class System {
    /** The component types an entity must have to be processed by this system. */
    var componentSignature: Signature
    /** The roster. */
    var entities: seq<Entity>

    ghost predicate Valid()
      reads this
    {
      NoDuplicates(entities)
    }

    /** `System() = default`: nothing required, nobody on the roster. */
    constructor ()
      ensures Valid()
      ensures componentSignature == Empty && entities == []
    {
      componentSignature := Empty;
      entities := [];
    }

    /** Scans the roster; appends the entity only when no member has its id. */
    method AddEntityToSystem(entity: Entity)
      requires Valid()
      modifies this`entities
      ensures Valid()
      ensures entities == Added(old(entities), entity)
    {
      var i := 0;
      while i < |entities|
        invariant 0 <= i <= |entities|
        invariant forall k :: 0 <= k < i ==> entities[k] != entity
      {
        if entities[i] == entity {
          return;
        }
        i := i + 1;
      }
      AddedKeepsUnique(entities, entity);
      entities := entities + [entity];
    }

    /**
     * The erase-remove idiom: a read cursor walks the roster, every element
     * that is not `entity` is moved down to the write cursor, and the tail
     * beyond the write cursor is erased.
     */
    method RemoveEntityFromSystem(entity: Entity)
      requires Valid()
      modifies this`entities
      ensures Valid()
      ensures entities == Removed(old(entities), entity)
    {
      var buf := entities;
      var w := 0;
      var r := 0;
      while r < |buf|
        invariant w <= r <= |buf| == |entities|
        invariant buf[..w] == Removed(entities[..r], entity)
        invariant buf[r..] == entities[r..]
      {
        assert entities[..r + 1] == entities[..r] + [entities[r]];
        assert buf[r] == entities[r];
        if buf[r] != entity {
          buf := buf[w := buf[r]];
          w := w + 1;
        }
        r := r + 1;
      }
      assert entities[..r] == entities;
      RemovedKeepsUnique(entities, entity);
      entities := buf[..w];
    }

    /** Returns a copy of the roster; nothing changes. */
    method GetSystemEntities() returns (roster: seq<Entity>)
      ensures roster == entities
      ensures Valid() ==> NoDuplicates(roster)
    {
      roster := entities;
    }

    /** Returns the required signature; nothing changes. */
    method GetComponentSignature() returns (sig: Signature)
      ensures sig == componentSignature
    {
      sig := componentSignature;
    }

    /**
     * `RequireComponent<T>`: fetches (possibly minting) T's id and turns
     * that bit on in the required signature; every other bit is kept.
     */
    method RequireComponent(ids: ComponentIdTable, t: TypeName)
      requires ids.Valid()
      requires ids.IdOf(t) < MaxComponents
      modifies this`componentSignature, ids
      ensures ids.Valid()
      ensures t in ids.ids && ids.ids[t] == old(ids.IdOf(t))
      ensures ids.ids == old(ids.ids)[t := ids.ids[t]]
      ensures ids.nextId == old(ids.nextId) + (if t in old(ids.ids) then 0 else 1)
      ensures componentSignature == Set(old(componentSignature), ids.ids[t])
    {
      var componentId := ids.GetId(t);
      componentSignature := Set(componentSignature, componentId);
    }
  }
}
