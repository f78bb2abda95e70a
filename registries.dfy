/**
 * Registries: the owner of the entity counter, the per-entity signatures,
 * one component pool per component-type id, the system table and the
 * pending sets of entities to add and to kill.
 */
module Registries {
  import opened Signatures
  import opened ComponentIds
  import opened Entities
  import opened Systems
  import opened Pools

  /** The name of a system type (the key of the system table). */
  type SystemType = string

  /**
   * A registry whose components all have value type C (the union of the
   * program's component structs).  A `null` pool slot is a pool that has
   * not been created yet.
   */
  class Registry<C(0)> {
    var numEntities: nat
    /** Index = component-type id. */
    var componentPools: seq<Pool?<C>>
    /** Index = entity id. */
    var entityComponentSignatures: seq<Signature>
    var systems: map<SystemType, System>
    var entitiesToBeAdded: set<Entity>
    var entitiesToBeKilled: set<Entity>

    /** The pools created so far. */
    ghost function Pools(): set<Pool?<C>>
      reads this
    {
      set k | 0 <= k < |componentPools| && componentPools[k] != null :: componentPools[k]
    }

    /**
     * No pool object serves two component ids, and every pending entity was
     * minted by this registry.
     */
    ghost predicate Valid()
      reads this
    {
      && (forall i, j :: 0 <= i < j < |componentPools| && componentPools[i] != null ==>
            componentPools[i] != componentPools[j])
      && (forall e :: e in entitiesToBeAdded ==> 0 <= e.id < numEntities)
    }

    /** Every minted entity has a slot in the signature table. */
    predicate SignaturesCover()
      reads this
    {
      numEntities <= |entityComponentSignatures|
    }

    /** `Registry() = default`: everything empty, no entity minted. */
    constructor ()
      ensures Valid()
      ensures numEntities == 0 && componentPools == [] && entityComponentSignatures == []
      ensures systems == map[] && entitiesToBeAdded == {} && entitiesToBeKilled == {}
    {
      numEntities := 0;
      componentPools := [];
      entityComponentSignatures := [];
      systems := map[];
      entitiesToBeAdded := {};
      entitiesToBeKilled := {};
    }

    /**
     * Deferred processing of the pending sets.  The body is still a stub,
     * so the state stays exactly as it was.
     */
    method Update()
      ensures unchanged(this)
    {
    }

    /**
     * Mints the next id and queues the entity for addition.  Rosters and
     * signatures are outside the frame: no slot is made in the signature
     * table for the new entity.
     */
    method CreateEntity() returns (entity: Entity)
      requires Valid()
      modifies this`numEntities, this`entitiesToBeAdded
      ensures Valid()
      ensures entity.id == old(numEntities)
      ensures numEntities == old(numEntities) + 1
      ensures forall e :: e in old(entitiesToBeAdded) ==> e.id < entity.id
      ensures entitiesToBeAdded == old(entitiesToBeAdded) + {entity}
    {
      var entityId := numEntities;
      numEntities := numEntities + 1;
      entity := Entity(entityId);
      entitiesToBeAdded := entitiesToBeAdded + {entity};
    }

    /**
     * Creation that gives the new entity the cleared signature slot that
     * AddComponent, RemoveComponent and HasComponent index: besides minting
     * and queueing, it grows the signature table when needed and clears the
     * new entity's slot.
     */
    method CreateEntityWithSignature() returns (entity: Entity)
      requires Valid()
      modifies this`numEntities, this`entitiesToBeAdded, this`entityComponentSignatures
      ensures Valid() && SignaturesCover()
      ensures entity.id == old(numEntities)
      ensures numEntities == old(numEntities) + 1
      ensures entity !in old(entitiesToBeAdded)
      ensures entitiesToBeAdded == old(entitiesToBeAdded) + {entity}
      ensures entity.id < |entityComponentSignatures|
      ensures entityComponentSignatures[entity.id] == Empty
      ensures |entityComponentSignatures| ==
        if old(|entityComponentSignatures|) <= entity.id then entity.id + 1 else old(|entityComponentSignatures|)
      ensures forall i :: old(|entityComponentSignatures|) <= i < |entityComponentSignatures| ==>
        entityComponentSignatures[i] == Empty
      ensures forall i :: 0 <= i < old(|entityComponentSignatures|) && i != entity.id ==>
        entityComponentSignatures[i] == old(entityComponentSignatures[i])
    {
      var entityId := numEntities;
      numEntities := numEntities + 1;
      if |entityComponentSignatures| <= entityId {
        entityComponentSignatures := entityComponentSignatures
          + seq(entityId + 1 - |entityComponentSignatures|, _ => Empty);
      }
      entityComponentSignatures := entityComponentSignatures[entityId := Empty];
      entity := Entity(entityId);
      entitiesToBeAdded := entitiesToBeAdded + {entity};
    }

    /**
     * The first half of AddComponent: grows the pool vector so that
     * `componentId` is an index and creates a default pool in that slot
     * when it is still empty.
     */
    method EnsurePool(componentId: nat) returns (pool: Pool<C>)
      requires Valid()
      modifies this`componentPools
      ensures Valid()
      ensures componentId < |componentPools| && componentPools[componentId] == pool
      ensures old(componentId < |componentPools| && componentPools[componentId] != null) ==>
        pool == old(componentPools[componentId])
      ensures !old(componentId < |componentPools| && componentPools[componentId] != null) ==>
        fresh(pool) && pool.GetSize() == DefaultSize
      ensures |componentPools| ==
        if old(|componentPools|) <= componentId then componentId + 1 else old(|componentPools|)
      ensures fresh(Pools() - old(Pools()))
      ensures forall k :: 0 <= k < |componentPools| && k != componentId ==>
        componentPools[k] == (if k < old(|componentPools|) then old(componentPools[k]) else null)
    {
      if |componentPools| <= componentId {
        componentPools := componentPools + seq(componentId + 1 - |componentPools|, _ => null);
      }
      if componentPools[componentId] == null {
        var newPool := new Pool<C>();
        componentPools := componentPools[componentId := newPool];
      }
      pool := componentPools[componentId];
    }

    /**
     * The second half of AddComponent: resizes the pool to `numEntities`
     * when it does not reach the entity, then writes the value.
     */
    method Store(pool: Pool<C>, entityId: nat, value: C)
      requires entityId < numEntities
      modifies pool
      ensures pool.GetSize() == if old(pool.GetSize()) <= entityId then numEntities else old(pool.GetSize())
      ensures pool.Get(entityId) == value
      ensures forall i :: 0 <= i < old(pool.GetSize()) && i != entityId ==> pool.Get(i) == old(pool.Get(i))
    {
      if pool.GetSize() <= entityId {
        pool.Resize(numEntities);
      }
      pool.Set(entityId, value);
    }

    /**
     * `AddComponent<T>(entity, value)`: fetches T's id, grows the pool
     * vector to cover it, creates T's pool (100 slots) if missing, resizes
     * the pool to `numEntities` when it does not reach the entity, writes
     * the value and turns T's bit on in the entity's signature.
     */
    method AddComponent(ids: ComponentIdTable, t: TypeName, entity: Entity, value: C)
      requires Valid() && ids.Valid()
      requires ids.IdOf(t) < MaxComponents
      requires 0 <= entity.id < numEntities
      requires entity.id < |entityComponentSignatures|
      modifies this, ids, Pools()
      ensures Valid() && ids.Valid()
      ensures t in ids.ids && ids.ids[t] == old(ids.IdOf(t))
      ensures ids.ids == old(ids.ids)[t := ids.ids[t]]
      ensures ids.nextId == old(ids.nextId) + (if t in old(ids.ids) then 0 else 1)
      // T's pool exists, reaches the entity and holds the value
      ensures var cid := ids.ids[t];
        && cid < |componentPools| && componentPools[cid] != null
        && entity.id < componentPools[cid].GetSize()
        && componentPools[cid].Get(entity.id) == value
      // T's pool (100 slots when just created) is resized to numEntities exactly when it did not reach the entity
      ensures var cid := ids.ids[t];
        var before := if old(cid < |componentPools| && componentPools[cid] != null)
          then old(componentPools[cid].GetSize()) else DefaultSize;
        componentPools[cid].GetSize() == if before <= entity.id then numEntities else before
      // an existing pool of T is kept, never shrinks, and no other entity's value changes
      ensures var cid := ids.ids[t];
        old(cid < |componentPools| && componentPools[cid] != null) ==>
          && componentPools[cid] == old(componentPools[cid])
          && componentPools[cid].GetSize() >= old(componentPools[cid].GetSize())
          && forall i :: 0 <= i < old(componentPools[cid].GetSize()) && i != entity.id ==>
               componentPools[cid].Get(i) == old(componentPools[cid].Get(i))
      // every other pool slot is as before (or newly empty), and other pools' contents are untouched
      ensures |componentPools| ==
        if old(|componentPools|) <= ids.ids[t] then ids.ids[t] + 1 else old(|componentPools|)
      ensures fresh(Pools() - old(Pools()))
      ensures forall k :: 0 <= k < |componentPools| && k != ids.ids[t] ==>
        componentPools[k] == (if k < old(|componentPools|) then old(componentPools[k]) else null)
      ensures forall k :: 0 <= k < old(|componentPools|) && k != ids.ids[t] && old(componentPools[k]) != null ==>
        old(componentPools[k]).data == old(componentPools[k].data)
      // exactly T's bit of this entity's signature is turned on
      ensures entityComponentSignatures ==
        old(entityComponentSignatures)[entity.id := Set(old(entityComponentSignatures[entity.id]), ids.ids[t])]
      ensures Test(entityComponentSignatures[entity.id], ids.ids[t])
      ensures numEntities == old(numEntities) && systems == old(systems)
      ensures entitiesToBeAdded == old(entitiesToBeAdded) && entitiesToBeKilled == old(entitiesToBeKilled)
    {
      var componentId := ids.GetId(t);
      var entityId := entity.id;
      var componentPool := EnsurePool(componentId);
      Store(componentPool, entityId, value);

      entityComponentSignatures := entityComponentSignatures[entityId :=
        Set(entityComponentSignatures[entityId], componentId)];
    }

    /**
     * `RemoveComponent<T>(entity)`: turns T's bit off; the pool keeps the
     * stale value (pools are outside the frame).
     */
    method RemoveComponent(ids: ComponentIdTable, t: TypeName, entity: Entity)
      requires ids.Valid()
      requires ids.IdOf(t) < MaxComponents
      requires 0 <= entity.id < |entityComponentSignatures|
      modifies this`entityComponentSignatures, ids
      ensures ids.Valid()
      ensures t in ids.ids && ids.ids[t] == old(ids.IdOf(t))
      ensures ids.ids == old(ids.ids)[t := ids.ids[t]]
      ensures ids.nextId == old(ids.nextId) + (if t in old(ids.ids) then 0 else 1)
      ensures entityComponentSignatures ==
        old(entityComponentSignatures)[entity.id := Reset(old(entityComponentSignatures[entity.id]), ids.ids[t])]
      ensures !Test(entityComponentSignatures[entity.id], ids.ids[t])
    {
      var componentId := ids.GetId(t);
      var entityId := entity.id;
      entityComponentSignatures := entityComponentSignatures[entityId :=
        Reset(entityComponentSignatures[entityId], componentId)];
    }

    /** `HasComponent<T>(entity)`: tests T's bit (fetching T's id may mint it). */
    method HasComponent(ids: ComponentIdTable, t: TypeName, entity: Entity) returns (has: bool)
      requires ids.Valid()
      requires ids.IdOf(t) < MaxComponents
      requires 0 <= entity.id < |entityComponentSignatures|
      modifies ids
      ensures ids.Valid()
      ensures t in ids.ids && ids.ids[t] == old(ids.IdOf(t))
      ensures ids.ids == old(ids.ids)[t := ids.ids[t]]
      ensures ids.nextId == old(ids.nextId) + (if t in old(ids.ids) then 0 else 1)
      ensures has == Test(entityComponentSignatures[entity.id], ids.ids[t])
    {
      var componentId := ids.GetId(t);
      has := Test(entityComponentSignatures[entity.id], componentId);
    }

    /**
     * `AddSystem<TSystem>(args...)`: `newSystem` is the instance constructed
     * from the arguments; map insert keeps an instance already registered.
     */
    method AddSystem(kind: SystemType, newSystem: System)
      modifies this`systems
      ensures HasSystem(kind)
      ensures old(HasSystem(kind)) ==> systems == old(systems)
      ensures !old(HasSystem(kind)) ==> systems == old(systems)[kind := newSystem]
    {
      if kind !in systems {
        systems := systems[kind := newSystem];
      }
    }

    /** `RemoveSystem<TSystem>()`: erasing the found entry needs it to exist. */
    method RemoveSystem(kind: SystemType)
      requires HasSystem(kind)
      modifies this`systems
      ensures !HasSystem(kind)
      ensures systems == old(systems) - {kind}
    {
      systems := systems - {kind};
    }

    /** `HasSystem<TSystem>()`: is an instance registered under the type? */
    predicate HasSystem(kind: SystemType)
      reads this
    {
      kind in systems
    }

    /** `GetSystem<TSystem>()`: dereferencing the found entry needs it to exist. */
    method GetSystem(kind: SystemType) returns (system: System)
      requires HasSystem(kind)
      ensures system == systems[kind]
    {
      system := systems[kind];
    }
  }

  /**
   * As written, CreateEntity leaves the signature table empty, so the very
   * first entity of a new registry has no signature slot for AddComponent,
   * RemoveComponent or HasComponent to index.
   */
  method FirstEntityHasNoSignatureSlot() returns (entity: Entity, slotExists: bool)
    ensures entity.id == 0
    ensures !slotExists
  {
    var registry := new Registry<int>();
    entity := registry.CreateEntity();
    slotExists := entity.id < |registry.entityComponentSignatures|;
  }

  /**
   * With the signature slot created by CreateEntityWithSignature, a new
   * entity can take a component and is then seen to have it.
   */
  method FirstEntityTakesComponent(t: TypeName, value: int) returns (entity: Entity, has: bool)
    ensures entity.id == 0
    ensures has
  {
    var registry := new Registry<int>();
    var ids := new ComponentIdTable();
    entity := registry.CreateEntityWithSignature();
    registry.AddComponent(ids, t, entity, value);
    has := registry.HasComponent(ids, t, entity);
  }

  /**
   * Ids stay put across calls: after two components are added to one new
   * entity, the entity is seen to have both (the way the game loop equips
   * each entity with several components in a row).
   */
  method EntityTakesTwoComponents(t: TypeName, u: TypeName, first: int, second: int)
    returns (entity: Entity, hasFirst: bool, hasSecond: bool)
    ensures entity.id == 0
    ensures hasFirst && hasSecond
  {
    var registry := new Registry<int>();
    var ids := new ComponentIdTable();
    entity := registry.CreateEntityWithSignature();
    registry.AddComponent(ids, t, entity, first);
    registry.AddComponent(ids, u, entity, second);
    hasFirst := registry.HasComponent(ids, t, entity);
    hasSecond := registry.HasComponent(ids, u, entity);
  }
}
