# Entity/component storage core of cpp-sketches, in Dafny

This project models the header-only entity/component system in `include/`. It has three parts:

- **`utility::id_pool`** (`id_pool.dfy`). An identifier allocator that keeps two things:
  - a counter of the next never-issued id;
  - a LIFO free list of recycled ids.

  `max_id` is never issued fresh from the counter. While the caller frees only ids it holds, `allocate` returns `max_id` only as the "exhausted" sentinel (`PoolModel.SentinelIffExhausted`). `free` does not validate, so an id pushed with `free(max_id)` is handed out again from the queue.
- **`entity_component_system::system<Args...>`** (`system.dfy`). A component store with four parts:
  - one column per component type;
  - an `entity_id -> slot` map;
  - its own id_pool of slot indices;
  - columns that grow through the resizing `get_element` when a slot is written.
- **`entity_component_system::world<Systems...>`** (`world.dfy`). It owns:
  - a fixed, ordered tuple of stores;
  - the entity id_pool;
  - the deque of live entities.

Supporting files:
- `entity.dfy` holds `entity_id` (32-bit unsigned) and `invalid_entity_id`.
- `faults.dfy` holds the `std::out_of_range` that `map::at` throws. It is modelled as an `Err`/`Thrown` result.
- `scenarios.dfy` holds scenarios drawn from the example program `build/vs2017/entity_component_system/entity_component_system.cpp`, plus one pool scenario of its own. They are written as client code, and their results are proved from the contracts.

Pool and store are each modelled twice:
- **As a value.** `PoolModel.Pool` and `SystemModel.SystemState` come with functions for every operation and lemmas for what the allocator and the store promise.
- **As a class.** `IdPools.IdPool` and `Systems.ComponentSystem` update their fields in place. Each method is proved to perform its value-level function on `Model()`.

`Worlds.World` is a class with three fields:
- its stores, a sequence of `SystemState` values, because `std::tuple<Systems...>` holds them by value;
- its entity pool, an `IdPool` object;
- its live-entity list, a sequence field.

`remove_entity` and `clear` loop over the stores in declaration order, as `utility::for_each_in_tuple` does.

The heterogeneous tuple `std::tuple<std::vector<Args>...>` is modelled as `K` columns over one element type `V`. Each column has a value-initialised element of its own, which `vector::resize` fills new places with.

Two behaviours of the headers are modelled as written, not idealised:
- **`remove_component` has no guard.** It uses `map::at`, so it throws for an entity that has no component. `remove_entity` therefore throws at the first store lacking the entity. By then the entity list has already been edited, and the id is not freed.
- **A duplicate `add_component` leaks a slot.** It allocates a slot first and keeps it even when `register_entity` refuses the id. That slot is not mapped and not queued, and it stays so through every later add and remove. It is not issued again until the next `clear` resets the slot pool.

Further facts about the headers that the model keeps:
- `remove_entity` erases every occurrence of the id from the entity list, not just the first (world.hpp:51).
- A store that lacks the id makes `remove_entity` throw, through `map::at` (system.hpp:57, 130).
- Recycled ids come back most recently freed first (id_pool.hpp:26-27).
- The headers have no entity-id column, no tombstones and no `has`/`is_valid` queries, so the model has none.
- `world::add_component` (world.hpp:72-75) passes its named rvalue-reference parameter `initializer`, which is an lvalue, to `system::add_component(entity_id, component&&)`. The template is therefore ill-formed once instantiated, and the example program never calls it. `Worlds.World.AddComponent` models the evidently intended delegation.

## Model

| member | source | states |
|---|---|---|
| PoolModel.Init | include/utility/id_pool.hpp:53-55 | a default-constructed pool has its counter at min_id and nothing queued, and satisfies the pool invariant |
| PoolModel.Allocate | include/utility/id_pool.hpp:22-38 | allocate keeps min_id/max_id, keeps the invariant and never returns more than max_id |
| PoolModel.Free | include/utility/id_pool.hpp:40-46 | free pushes the id on the back of the free list: the queue is one longer, its old contents kept in front and id at the back; the counter is untouched; it keeps the invariant for ids up to max_id |
| PoolModel.Clear | include/utility/id_pool.hpp:48-51 | clear yields exactly the freshly constructed pool |
| PoolModel.FreeThenAllocate | include/utility/id_pool.hpp:25-27 | LIFO reuse: allocate right after free(id) returns id and restores the pool exactly |
| PoolModel.AllocateFromCounter | include/utility/id_pool.hpp:32-34 | with nothing queued and the counter below max_id, allocate returns the counter and increments it by exactly one |
| PoolModel.SentinelIffExhausted | include/utility/id_pool.hpp:23-30 | under the bookkeeping, allocate returns max_id iff nothing is queued and the counter is at max_id; it is then a no-op, and no caller holds max_id |
| PoolModel.AllocateKeepsAccounts | include/utility/id_pool.hpp:22-38 | uniqueness: a non-exhausted pool issues an id no caller holds, and the live/queued/never-issued partition survives with it added |
| PoolModel.FreeKeepsAccounts | include/utility/id_pool.hpp:40-46 | uniqueness: freeing a live id keeps the partition, with the id moved from live to queued |
| PoolModel.AccountsShrink | include/utility/id_pool.hpp:22-46 | forgetting live ids (a leak) never breaks the partition |
| PoolModel.DoubleFreeIssuesTwice | include/utility/id_pool.hpp:40-46 | free does not validate: an id freed twice is allocated twice in a row |
| PoolModel.ClearThenAllocate | include/utility/id_pool.hpp:48-51 | after clear the next allocate returns min_id and leaves the counter at min_id + 1 |
| PoolModel.Run | include/utility/id_pool.hpp:22-46 | running a sequence of allocate/free calls keeps min_id and max_id and takes at most one fresh id per call |
| PoolModel.FreshIdsIncrease | include/utility/id_pool.hpp:32-34 | over any sequence of allocate/free calls, the ids taken from the counter lie in [counter, max_id) and strictly increase; the counter never moves down or past max_id |
| IdPools.IdPool.constructor | include/utility/id_pool.hpp:54-55 | the object starts as PoolModel.Init(min_id, max_id) |
| IdPools.IdPool.Allocate | include/utility/id_pool.hpp:22-38 | the in-place allocate returns and leaves exactly what PoolModel.Allocate gives |
| IdPools.IdPool.Free | include/utility/id_pool.hpp:40-46 | the in-place free (both overloads) leaves PoolModel.Free of the old state |
| IdPools.IdPool.Clear | include/utility/id_pool.hpp:48-51 | the in-place clear leaves PoolModel.Clear of the old state |
| SystemModel.Empty | include/entity_component_system/system.hpp:144-147 | a default-constructed store (empty columns, empty map, fresh slot pool) satisfies the store invariant |
| SystemModel.WriteElement | include/entity_component_system/system.hpp:82-89 | get_element then assignment: the column grows to index + 1 with value-initialised elements only when too short, position index holds the value, and every other element is kept |
| SystemModel.WriteRow | include/entity_component_system/system.hpp:102-105 | writing a row through the component handle leaves the number of columns; each column grows to index + 1 only when shorter, holds the row's value at index, and keeps every other element |
| SystemModel.RowAt | include/entity_component_system/system.hpp:113-119 | the component at a slot has one value per column, each column's element at that slot |
| SystemModel.AddComponent | include/entity_component_system/system.hpp:45-50 | the slot pool always advances by one allocate; a registered id leaves map and columns unchanged; an unregistered id is mapped to the allocated slot, and every column holds its row value there |
| SystemModel.Clear | include/entity_component_system/system.hpp:70-79 | every column empty, the map empty, the slot queue empty and the counter at min_id; a valid store stays valid |
| SystemModel.RemoveComponent | include/entity_component_system/system.hpp:56-60 | remove_component fails exactly when the entity is not in the map |
| SystemModel.GetComponent | include/entity_component_system/system.hpp:62-68 | get_component fails exactly for an unregistered entity; otherwise it yields one value per column |
| SystemModel.WriteMember | include/entity_component_system/system.hpp:66-68 | assignment through the view get_component returns fails exactly for an unregistered entity |
| SystemModel.ClearIsEmpty | include/entity_component_system/system.hpp:70-79 | clear puts a store back in its default-constructed state |
| SystemModel.AddKeepsValid | include/entity_component_system/system.hpp:45-50 | add_component keeps the invariant (equal column lengths, mapped slots inside the columns, distinct slots, slot pool partition), duplicate or not, while the slot pool is not exhausted |
| SystemModel.AddThenGet | include/entity_component_system/system.hpp:45-50 | round trip: adding to an unregistered entity maps it to the freshly allocated slot, and get_component then returns the row |
| SystemModel.AddKeepsOthers | include/entity_component_system/system.hpp:45-50 | distinct entities occupy distinct slots: an add never changes what get_component returns for another entity |
| SystemModel.DuplicateAddLeaksSlot | include/entity_component_system/system.hpp:45-50 | a duplicate add changes only the slot pool, and the slot it consumed is leaked: not mapped, not queued, below the counter |
| SystemModel.LeakedNotIssued | include/utility/id_pool.hpp:22-38 | a leaked slot is not what the next allocate returns |
| SystemModel.LeakedAfterAdd | include/entity_component_system/system.hpp:45-50 | a leaked slot stays leaked through any later add on a non-exhausted slot pool, so no add issues it until the next clear |
| SystemModel.LeakedAfterRemove | include/entity_component_system/system.hpp:56-60 | a leaked slot stays leaked through any later remove |
| SystemModel.AddAppends | include/entity_component_system/system.hpp:82-89 | when the new slot is the columns' common length, the row is appended to every column |
| SystemModel.AddOverwrites | include/entity_component_system/system.hpp:82-89 | when the new slot lies inside the columns, each column is overwritten at that slot and nothing else changes |
| SystemModel.RemoveFacts | include/entity_component_system/system.hpp:56-60 | removing a registered entity erases only its mapping and queues its slot, columns untouched; the store stays valid, the entity is no longer found, and every other entity still is |
| SystemModel.RemoveThenAddReusesSlot | include/entity_component_system/system.hpp:136-142 | after removing e1, the next add for an unregistered entity takes e1's slot and reads back its row |
| SystemModel.WriteMemberFacts | include/entity_component_system/system.hpp:62-68 | writing member c through get_component(e) changes only that member of e's component; other entities read as before |
| SystemModel.ClearThenAdd | include/entity_component_system/system.hpp:70-79 | after clear the next add maps the entity to slot 0 and reads back its row |
| Systems.ComponentSystem.constructor | include/entity_component_system/system.hpp:33 | the object starts as SystemModel.Empty and valid |
| Systems.ComponentSystem.GetMembers | include/entity_component_system/system.hpp:36-39 | get_members<c> is column c, in which every registered entity's member c sits at its slot |
| Systems.ComponentSystem.AddComponent | include/entity_component_system/system.hpp:45-50 | allocate, register, and write the row only when registered: exactly SystemModel.AddComponent, keeping the invariant |
| Systems.ComponentSystem.Emplace | include/entity_component_system/system.hpp:52-54 | emplace is add_component with the tuple built from the arguments |
| Systems.ComponentSystem.RemoveComponent | include/entity_component_system/system.hpp:56-60 | throws out_of_range and changes nothing for an unregistered entity; otherwise leaves SystemModel.RemoveComponent's state |
| Systems.ComponentSystem.GetComponent | include/entity_component_system/system.hpp:62-68 | the lookup through map::at agrees with SystemModel.GetComponent and changes nothing |
| Systems.ComponentSystem.WriteMember | include/entity_component_system/system.hpp:117-119 | assignment through the component view updates only the element at the entity's slot, as SystemModel.WriteMember says |
| Systems.ComponentSystem.Clear | include/entity_component_system/system.hpp:70-79 | the per-column loop, then the map and pool resets, leave the default-constructed store |
| Systems.ComponentSystem.WriteRow | include/entity_component_system/system.hpp:102-105 | assigning through make_component_handle writes every column at index through get_element |
| Systems.ComponentSystem.AssignElement | include/entity_component_system/system.hpp:82-89 | the resizing get_element followed by assignment changes only column c, as SystemModel.WriteElement |
| Systems.ComponentSystem.RegisterEntity | include/entity_component_system/system.hpp:121-123 | map::emplace inserts only an absent key and reports whether it did |
| Systems.ComponentSystem.DeregisterEntity | include/entity_component_system/system.hpp:125-127 | map::erase removes the key and reports whether it was present |
| Systems.ComponentSystem.GetComponentIndex | include/entity_component_system/system.hpp:129-131 | map::at yields the mapped slot, or out_of_range exactly when the key is absent |
| Systems.ComponentSystem.AllocateComponentIndex | include/entity_component_system/system.hpp:136-138 | the slot pool's allocate |
| Systems.ComponentSystem.FreeComponentIndex | include/entity_component_system/system.hpp:140-142 | the slot pool's free |
| Worlds.Erased | include/entity_component_system/world.hpp:51 | the erased list is no longer than the original, and every id left is from the original and differs from id |
| Worlds.ErasedCounts | include/entity_component_system/world.hpp:51 | erase-remove deletes exactly the occurrences of id: every other id keeps its multiplicity |
| Worlds.ErasedConcat | include/entity_component_system/world.hpp:51 | erase-remove keeps the relative order: it distributes over concatenation |
| Worlds.ErasedAbsent | include/entity_component_system/world.hpp:51 | a list without id is left unchanged |
| Worlds.ErasedMembers | include/entity_component_system/world.hpp:51 | the ids left are exactly the list's ids other than id |
| Worlds.ErasedUnique | include/entity_component_system/world.hpp:51 | on a duplicate-free list the result is duplicate-free and its ids are the old ones minus id |
| Worlds.RemoveFromAll | include/entity_component_system/world.hpp:52-57 | the fan-out keeps the number of stores, and it stops short only when some store lacks id |
| Worlds.RemoveFromAllFacts | include/entity_component_system/world.hpp:52-57 | the remove_component fan-out completes iff id is registered in every store; the stores before the first one lacking id lose id, and the rest are unchanged |
| Worlds.RemoveFromAllKeepsValid | include/entity_component_system/world.hpp:52-57 | the fan-out keeps every store valid |
| Worlds.World.constructor | include/entity_component_system/world.hpp:32 | every store default-constructed, a fresh entity pool, an empty list, with the uniqueness bookkeeping in place |
| Worlds.World.GetSystem | include/entity_component_system/world.hpp:35-39 | get_system<I> yields store I, which satisfies the store invariant whenever every store does |
| Worlds.World.Entities | include/entity_component_system/world.hpp:41 | entities() is the live list; under the bookkeeping it has no repeats and never holds invalid_entity_id |
| Worlds.World.MakeEntity | include/entity_component_system/world.hpp:44-48 | returns the pool's allocate result, appends it to the list, changes no store; under the bookkeeping and a non-exhausted pool the id is new and not invalid_entity_id, and the bookkeeping survives |
| Worlds.World.EraseFromEntityList | include/entity_component_system/world.hpp:51 | the in-place erase-remove loop leaves Erased of the old list |
| Worlds.World.RemoveEntity | include/entity_component_system/world.hpp:50-59 | list erased first; stores as RemoveFromAll says; out_of_range when a store lacks id; id freed (and next to be made) only when no store threw; the bookkeeping survives for a listed id |
| Worlds.World.RemoveFromSystems | include/entity_component_system/world.hpp:52-57 | the in-order loop over the stores stops at the first store lacking id, with exactly the earlier stores updated |
| Worlds.World.Clear | include/entity_component_system/world.hpp:61-70 | every store back to its default state, the pool reset, the list empty; the next make_entity returns 0 |
| Worlds.World.AddComponent | include/entity_component_system/world.hpp:72-75 | only store I changes, by SystemModel.AddComponent; the pool and the list are unchanged |
| Worlds.World.Emplace | include/entity_component_system/world.hpp:77-80 | only store I changes, by emplace; the pool and the list are unchanged |
| Worlds.World.RemoveComponent | include/entity_component_system/world.hpp:82-85 | out_of_range with nothing changed iff id is not in store I; otherwise only store I changes |
| Worlds.World.WriteMember | include/entity_component_system/world.hpp:92-95 | assignment through the view get_component<I> returns: out_of_range with nothing changed iff id is not in store I, otherwise store I changes by SystemModel.WriteMember alone; the pool and the list are unchanged |
| Worlds.World.GetComponent | include/entity_component_system/world.hpp:87-95 | store I's lookup: fails iff id is not registered there, otherwise the row at id's slot |
| Worlds.World.GetMembers | include/entity_component_system/world.hpp:97-100 | store I's column Member, holding each registered entity's member at its slot |
| Scenarios.PoolReuse | include/utility/id_pool.hpp:22-46 | allocate, allocate, allocate, free the second, allocate, allocate gives 0, 1, 2, 1, 3 |
| Scenarios.RemoveThenEmplace | build/vs2017/entity_component_system/entity_component_system.cpp:66-88 | 123, 456 and 789 added for entities 0, 1 and 2; removing 1 and adding 999 for entity 3 leaves the column 123, 999, 789 |
| Scenarios.EntityRecycling | build/vs2017/entity_component_system/entity_component_system.cpp:144-174 | entities 0, 1, 2 made, 1 removed, one more made: the list is 0, 2, 1 |
| Scenarios.ErasedMiddle | include/entity_component_system/world.hpp:51 | removing 1 from 0, 1, 2 with erase-remove leaves 0, 2 |

## Left out

- The demos use an API that the headers do not have: `emplace_component`, an entity-id column tombstoned with `invalid_entity_id`, `invoke_system`, entity handles, and `entities()` on a store. Only what `system.hpp` and `world.hpp` define is modelled. This is why `Scenarios.RemoveThenEmplace` uses the headers' `add_component`/`emplace`.
- Scenarios.EntityRecycling: replays only test_world's entity bookkeeping, on a world with no stores. The three stores of test_world, and their contents, are not part of the scenario.
- The rest of the example program is not replayed. This covers its three-store world with `float` positions, and the `sizeof`/`typeid` printing (entity_component_system.cpp:35-44, 90-98).
- The OpenSiv3D demos, the neural network and the genetic algorithm are outside the core. They involve rendering, floating point, random rates and user callbacks.
- `utility::for_each_in_tuple` is compile-time tuple expansion. It becomes an in-order loop over the sequence of stores.
- The const `get_element`/`get_component` overloads never resize (system.hpp:91-100). The store invariant keeps every mapped slot inside the columns, so reading through them is modelled as reading in range.
- `make_component` (system.hpp:28-30) only builds a tuple, so a row is already a sequence.
- `std::tie` views and C++ references are not modelled as aliases. An assignment through a view is modelled by the one write it performs (`WriteMember`, `WriteRow`).
- Systems.ComponentSystem.AddComponent, Systems.ComponentSystem.Emplace, Worlds.World.AddComponent and Worlds.World.Emplace require a registering add to find the slot pool not exhausted. On an exhausted pool, `allocate` returns SIZE_MAX and `index + 1` wraps to 0 in `size_t` arithmetic (system.hpp:86). `resize(0)` then empties the column, and `container[SIZE_MAX]` reads out of bounds (system.hpp:88). This undefined behaviour is not modelled.
- `size_t` is taken as 64-bit (`SystemModel.SLOT_INDEX_MAX`), and `entity_id` as 32-bit `unsigned int`. Counters are unbounded integers, capped by `max_id` exactly as `allocate` caps them, so no wrap-around can occur.
- Worlds.World.GetSystem returns the store's state as a value, not a reference. The store updates that a caller makes through the references returned by `get_system`, `get_component` and `get_members` are modelled by the world's delegating methods, `Worlds.World.WriteMember` included. An arbitrary write into the column that `get_members` returns is not modelled.
- Worlds.World holds its stores as `SystemState` values, not as `ComponentSystem` objects. The value operations are the ones `ComponentSystem`'s methods are proved to perform.
- `std::deque` and `std::unordered_map` are modelled as `seq` and `map`. Iteration order of the unordered map is never observed by the core.
