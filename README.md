# ECS core of a 2D game engine, modelled in Dafny

This project models the entity/component/system (ECS) bookkeeping of a small
SDL-based 2D game engine, together with two of its behaviour systems.

- **Signatures** (`signatures.dfy`). A signature is a 32-slot bit set saying which component types an
  entity has, or which ones a system requires. It is modelled as a set of slot numbers below 32.
- **Component-type ids** (`component_ids.dfy`). Each component type gets a stable id from one shared
  counter the first time it asks. The per-type statics and the shared `nextId` are gathered into a
  `ComponentIdTable` object. Callers pass that object explicitly.
- **Entities** (`entities.dfy`). An entity is just an integer id. It compares and orders by id.
- **Systems** (`systems.dfy`). A system holds its required signature and its roster. The roster is a
  vector of entities without duplicates. Adding appends only when the entity is absent. Removing is
  the erase-remove idiom.
- **Pools** (`pools.dfy`). A pool is the dense, entity-id-indexed vector of one component type. It
  supports resize, overwrite, push-back and clear.
- **Registry** (`registries.dfy`). The registry owns the entity counter, the per-entity signature
  table, one pool per component-type id, the system table, and the pending add and kill sets.
  `CreateEntity` mints ids. `AddComponent`, `RemoveComponent` and `HasComponent` work on pools and
  signature bits. `AddSystem`, `RemoveSystem`, `HasSystem` and `GetSystem` manage the system table.
  `Update` is still an empty stub.
- **CollisionSystem** (`collision_system.dfy`). The integer axis-aligned box overlap test. Its update
  compares every unordered pair of roster positions once.
- **RenderSystem** (`render_system.dfy`). Its update collects one entry per roster entity, sorts the
  entries by sprite z-index, and draws them in that order.

Classes are used where the source updates fields in place: `ComponentIdTable`, `System`, `Pool` and
`Registry`. Each method states its whole new state in terms of the old one, with three exceptions,
all listed under "## Left out": the values the `Pool` constructor and `Pool::Resize` put in new slots
(so also a pool `AddComponent` creates), and the order of equal z-indices after `SortByZIndex`. The roster and collision facts are
proved as lemmas about specification functions: `Added`/`Removed` for rosters, and
`Row`/`PairsBelow`/`AllPairs` and `Collisions` for the collision loop. The rendering facts are the
contracts of `SortByZIndex` and of `RenderSystem.Update`: sorted by z-index (`SortedByZ`) and a permutation.

Three behaviours may look unintended, but the model follows the code as written:
- `CreateEntity` neither reuses ids nor creates a signature slot.
- `Registry::Update` does nothing.
- `Pool::Resize` can shrink a pool. Only `AddComponent`'s guarded call always grows it.

## Model

| member | source | states |
|---|---|---|
| `Signatures.Test` | src/ECS/ECS.h:234 | a bit can only be on for a slot below 32, the size of the bit set |
| `Signatures.Set` | src/ECS/ECS.h:12-17 | turning a slot on makes that slot test true and leaves every other slot of the 32-slot set as it was |
| `Signatures.Reset` | src/ECS/ECS.h:224-226 | turning a slot off makes that slot test false and leaves every other slot as it was |
| `Signatures.SetIdempotent` | src/ECS/ECS.h:80-84 | setting the same bit twice gives the same signature as setting it once |
| `Signatures.SetPresent` | src/ECS/ECS.h:80-84 | setting a bit that is already on changes nothing |
| `Signatures.ResetAbsent` | src/ECS/ECS.h:220-227 | clearing a bit that is already off changes nothing (removing an absent component is a no-op) |
| `ComponentIds.ComponentIdTable.constructor` | src/ECS/ECS.h:19-22 | before any type has asked, no id is assigned and the shared counter is 0 |
| `ComponentIds.ComponentIdTable.GetId` | src/ECS/ECS.h:24-32 | a type seen before gets its old id back and nothing changes; a new type gets the old `nextId`, the counter goes up by one, and ids stay dense in first-use order and distinct from every other type's id |
| `ComponentIds.ComponentIdTable.Distinct` | src/ECS/ECS.h:27-31 | two distinct component types never share an id |
| `Entities.ComparisonsAgree` | src/ECS/ECS.h:41-57 | `==` is id equality, `!=` is its negation, `>` is `<` reversed, and `<` is a strict total order |
| `Systems.AddedKeepsUnique` | src/ECS/ECS.cpp:8-17 | adding keeps the roster duplicate-free, the entity is a member afterwards, and the roster is unchanged exactly when the entity was already present |
| `Systems.RemovedConcat` | src/ECS/ECS.cpp:19-28 | removal works piecewise over a concatenation, so the survivors keep their relative order |
| `Systems.RemovedContents` | src/ECS/ECS.cpp:19-28 | the multiset of the roster after removal is the old one with every copy of the entity dropped and nothing else changed |
| `Systems.RemovedMembers` | src/ECS/ECS.cpp:19-28 | an entity is on the roster after removal exactly when it was there before and is not the removed one |
| `Systems.RemovedAbsent` | src/ECS/ECS.cpp:19-28 | removing an absent entity leaves the roster unchanged |
| `Systems.RemovedKeepsUnique` | src/ECS/ECS.cpp:19-28 | removal keeps the roster duplicate-free |
| `Systems.System.constructor` | src/ECS/ECS.h:62-69 | a new system requires nothing and has an empty roster |
| `Systems.System.AddEntityToSystem` | src/ECS/ECS.cpp:8-17 | the scan-then-append loop leaves the roster as `Added(old roster, e)` and keeps it duplicate-free |
| `Systems.System.RemoveEntityFromSystem` | src/ECS/ECS.cpp:19-28 | the in-place erase-remove loop leaves the roster as `Removed(old roster, e)` and keeps it duplicate-free |
| `Systems.System.GetSystemEntities` | src/ECS/ECS.cpp:30-32 | returns a copy equal to the roster, which has no duplicates when the system is valid; nothing changes |
| `Systems.System.GetComponentSignature` | src/ECS/ECS.cpp:33-35 | returns the stored required signature; nothing changes |
| `Systems.System.RequireComponent` | src/ECS/ECS.h:80-84 | fetches T's id (minting it if new), leaves every other type's id as it was, and turns exactly that bit on in the required signature |
| `Pools.Pool.constructor` | src/ECS/ECS.h:100-102 | a new pool has exactly `size` slots, 100 by default |
| `Pools.Pool.IsEmpty` | src/ECS/ECS.h:106-108 | the pool is empty exactly when its size is 0 |
| `Pools.Pool.GetSize` | src/ECS/ECS.h:110-112 | the number of slots (an observer used by the contracts of `Resize`, `Add`, `Set` and `Store`) |
| `Pools.Pool.Get` | src/ECS/ECS.h:130-136 | the value in an existing slot; the slot must exist (an observer used by the same contracts) |
| `Pools.Pool.Resize` | src/ECS/ECS.h:114-116 | the size becomes exactly the argument and the common prefix keeps its values |
| `Pools.Pool.Clear` | src/ECS/ECS.h:118-120 | the pool is empty afterwards |
| `Pools.Pool.Add` | src/ECS/ECS.h:122-124 | the size grows by one, the new last slot holds the value, and earlier slots are unchanged |
| `Pools.Pool.Set` | src/ECS/ECS.h:126-132 | needs an existing slot; afterwards `Get(index)` is the value, the size is unchanged and every other slot is unchanged |
| `Registries.Registry.constructor` | src/ECS/ECS.h:142-163 | a new registry has minted no entity and has no pools, signatures, systems or pending entities |
| `Registries.Registry.Update` | src/ECS/ECS.cpp:48-51 | the stub leaves every field of the registry unchanged |
| `Registries.Registry.CreateEntity` | src/ECS/ECS.cpp:37-46 | returns the id equal to the old `numEntities`, which exceeds every pending id; the counter goes up by one and the entity joins the pending-add set; signatures, pools and systems are outside its frame |
| `Registries.Registry.CreateEntityWithSignature` | src/ECS/ECS.cpp:37-46 | the corrected creation: as `CreateEntity`, and in addition the signature table grows to exactly one past the new id when it is shorter; the new entity's slot and every added slot are cleared, the other slots are kept, and every minted entity is covered by the table |
| `Registries.Registry.EnsurePool` | src/ECS/ECS.h:195-205 | the pool vector grows to exactly one past the id when it is shorter and otherwise keeps its length; an existing pool is kept, a missing one is created fresh with 100 slots, and every other slot is unchanged or newly empty |
| `Registries.Registry.Store` | src/ECS/ECS.h:207-213 | the pool is resized to exactly `numEntities` when it did not reach the entity and otherwise keeps its size; it holds the value in the entity's slot and keeps every other slot |
| `Registries.Registry.AddComponent` | src/ECS/ECS.h:190-218 | fetches T's id (minting it if new) and leaves every other type's id as it was; the pool vector grows to exactly one past T's id when it is shorter and otherwise keeps its length; T's pool exists at T's id, reaches the entity and holds the value there; its size is exactly `numEntities` when its old size (100 if just created) did not reach the entity, and that old size otherwise; an existing pool never shrinks; a pool it creates is fresh; no other entity's value and no other pool changes; exactly T's bit of the entity's signature turns on |
| `Registries.Registry.RemoveComponent` | src/ECS/ECS.h:220-227 | fetches T's id (minting it if new) and leaves every other type's id as it was; only T's bit of the entity's signature turns off; pools are outside the frame, so the stale value stays |
| `Registries.Registry.HasComponent` | src/ECS/ECS.h:229-235 | the answer is T's bit in the entity's signature; fetching T's id may mint it, and every other type's id stays as it was |
| `Registries.Registry.AddSystem` | src/ECS/ECS.h:237-241 | an instance already registered under the type is kept; otherwise the new one is stored; either way the type is then registered |
| `Registries.Registry.RemoveSystem` | src/ECS/ECS.h:243-247 | needs the type to be registered; afterwards it is not, and no other entry changes |
| `Registries.Registry.HasSystem` | src/ECS/ECS.h:249-252 | an instance is registered under the type (the observer of the `AddSystem` and `RemoveSystem` contracts) |
| `Registries.Registry.GetSystem` | src/ECS/ECS.h:254-258 | needs the type to be registered and returns its instance |
| `Registries.FirstEntityHasNoSignatureSlot` | src/ECS/ECS.cpp:37-46 | as written, the first entity of a new registry has no signature slot for `AddComponent` to index |
| `Registries.FirstEntityTakesComponent` | src/ECS/ECS.h:190-235 | with the corrected creation, a new entity can take a component and `HasComponent` then reports it |
| `Registries.EntityTakesTwoComponents` | src/ECS/ECS.h:190-235 | ids stay put across calls: after two components are added to one new entity, `HasComponent` reports both |
| `CollisionSystem.CheckAABBCollision` | src/Systems/CollisionSystem.h:48-55 | the strict overlap test; passing it needs positive combined widths and positive combined heights |
| `CollisionSystem.SharedCellCollides` | src/Systems/CollisionSystem.h:48-55 | boxes sharing a unit cell always collide |
| `CollisionSystem.CollideIffSharedCell` | src/Systems/CollisionSystem.h:48-55 | for boxes of positive size the test holds exactly when the boxes share a unit cell |
| `CollisionSystem.EmptyBoxCanCollide` | src/Systems/CollisionSystem.h:48-55 | a box of zero width can still pass the test against a box containing its left edge, although no cell is shared |
| `CollisionSystem.CollideSymmetric` | src/Systems/CollisionSystem.h:48-55 | swapping the two boxes does not change the result |
| `CollisionSystem.TouchingDoNotCollide` | src/Systems/CollisionSystem.h:50-53 | boxes that only touch along an edge do not collide, because the inequalities are strict |
| `CollisionSystem.SelfCollision` | src/Systems/CollisionSystem.h:48-55 | a box collides with itself exactly when its width and height are both positive |
| `CollisionSystem.Create` | src/Systems/CollisionSystem.h:11-14 | the required signature is exactly {Transform id, BoxCollider id}, and the roster is empty; the id table gains exactly these two types' ids (when new, in that order) and no other id changes |
| `CollisionSystem.RowShape` | src/Systems/CollisionSystem.h:25 | one inner pass visits exactly the pairs (i, k) with i < k < j, in increasing order |
| `CollisionSystem.PairsBelowShape` | src/Systems/CollisionSystem.h:19-25 | the passes for outer positions below m visit exactly the pairs (p, q) with p < m and p < q < n, in strictly increasing order |
| `CollisionSystem.AllPairsExactlyOnce` | src/Systems/CollisionSystem.h:19-25 | a full update visits exactly the pairs i < j < n, each once, and never a position with itself |
| `CollisionSystem.CollisionsSnoc` | src/Systems/CollisionSystem.h:30-43 | visiting one more pair extends the log by that pair exactly when it collides |
| `CollisionSystem.CollisionsConcat` | src/Systems/CollisionSystem.h:19-45 | the log of consecutive visits is the concatenation of their logs |
| `CollisionSystem.CollisionsSources` | src/Systems/CollisionSystem.h:30-43 | every logged pair is the entity pair of some visited position pair whose boxes collide |
| `CollisionSystem.CollisionsMembers` | src/Systems/CollisionSystem.h:30-43 | both directions: every colliding visited pair is logged, and every logged pair comes from a colliding visited pair |
| `CollisionSystem.CompareWithLater` | src/Systems/CollisionSystem.h:25-44 | the inner loop visits `Row(i, n)` and logs exactly its colliding pairs |
| `CollisionSystem.Update` | src/Systems/CollisionSystem.h:16-46 | over a copy of the roster, the update visits `AllPairs(n)` and logs exactly the colliding pairs in visiting order; nothing is modified |
| `CollisionSystem.OverlappingPairLoggedOnce` | src/Systems/CollisionSystem.h:16-55 | two overlapping 32 by 32 colliders at (10, 10) and (20, 20) give exactly one logged collision, for that pair |
| `RenderSystem.Create` | src/Systems/RenderSystem.h:25-29 | the required signature is exactly {Transform id, Sprite id}, and the roster is empty; the id table gains exactly these two types' ids (when new, in that order) and no other id changes |
| `RenderSystem.SortByZIndex` | src/Systems/RenderSystem.h:44-46 | after the in-place sort the z-indices are non-decreasing, and the array is a permutation of its old contents |
| `RenderSystem.Update` | src/Systems/RenderSystem.h:31-73 | the collected list has one entry per roster entity, in roster order; the drawing order is sorted by z-index and is a permutation of the collected list |

## Left out

- `Registry::KillEntity`, `Registry::AddEntityToSystems` and `Entity::GetComponent` are not modelled. The first two are declared or left as a to-do without a definition. The last is not declared. So there is no deferred activation or destruction, no id free list, and no roster update from signatures.
- The event bus, `DamageSystem`, `MovementSystem`, `AnimationSystem`, `RenderCollisionSystem`, the game loop, `Logger` and `AssetStore` are not part of this model. They are SDL, console, file or floating-point code, or they rely on code that is not shown.
- Logging is dropped. The only log that matters, the collision report, is returned as the `logged` sequence of `CollisionSystem.Update`.
- Component lookups are not shown in the source (`GetComponent` is missing). The systems therefore take functions: `boxOf` gives an entity's collider box, already converted to whole units, and `zIndexOf` gives an entity's sprite z-index. The float-to-int conversion of positions is not modelled.
- `CollisionSystem.CheckAABBCollision`: uses unbounded integers. It does not model 32-bit overflow of `aX + aW` and the other sums.
- `Registries.Registry.CreateEntity`: `numEntities` is unbounded. It does not model 32-bit overflow of the id counter. The same holds for the id counter of `ComponentIds.ComponentIdTable.GetId`.
- `Pools.Pool.Resize`: only says that new slots hold some value of the component type, not the value-initialised default.
- `Pools.Pool.constructor`: only fixes the number of slots. It does not say the slots hold the value-initialised default. The same holds for a pool that `Registries.Registry.EnsurePool` or `Registries.Registry.AddComponent` creates.
- `RenderSystem.SortByZIndex`: leaves the order of entries with equal z-index open (see the `std::sort` line above).
- Pool sizes and indices are naturals. The source's negative `int` arguments are not modelled: they would be a length error or undefined behaviour.
- `Pool::Get` and `operator[]` return a reference. Writing through that reference is not modelled.
- `IPool`, `static_pointer_cast` and `std::type_index` are dropped. All pools of a registry share one value type `C`, standing for the union of the component structs. Component and system types are identified by name.
- `GetSystem` returns the `System` base object, not a reference of the derived type.
- `std::sort` is represented by an insertion sort. Only the result is claimed: sorted and a permutation. The order of equal z-indices is left open, because the library sort is not stable.
- The drawing call, texture lookup and scaled destination rectangle in `RenderSystem::Update` are left out. `drawn` is the sequence of entries handed to the renderer.
- `bitset::set` and `bitset::test` throw for a slot of 32 or more. An uncaught exception is a fatal configuration error, so this is a `requires` that the id fits.
- Out-of-range indexing of the signature table or of a pool is undefined behaviour. It becomes a `requires`: the entity id is below `numEntities` for `AddComponent`, and has a signature slot for `AddComponent`, `RemoveComponent` and `HasComponent`.
- The definition of the shared counter `IComponent::nextId` is not part of the shown files. It is taken to start at 0.

## Findings

| source | as written | input that shows it | evidently intended | confidence | as-written member | corrected member |
|---|---|---|---|---|---|---|
| src/ECS/ECS.cpp:37-46 | `CreateEntity` never grows `entityComponentSignatures`, yet `AddComponent`, `RemoveComponent` and `HasComponent` index that vector by entity id (src/ECS/ECS.h:215) | a new registry, `CreateEntity()` returns entity 0, then `AddComponent<T>(entity 0)` writes slot 0 of an empty vector | creating an entity makes sure the signature table has a cleared slot for it | high; not executed | `Registries.FirstEntityHasNoSignatureSlot` | `Registries.Registry.CreateEntityWithSignature` |
