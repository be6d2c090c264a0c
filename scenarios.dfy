/** The call sequences of the repository's example program
    (build/vs2017/entity_component_system/entity_component_system.cpp), written as client methods
    whose results are proved from the contracts of the objects they use. */
module Scenarios {
  import opened Faults
  import opened Entities
  import PoolModel
  import IdPools
  import SystemModel
  import Systems
  import Worlds

  /** allocate three ids, free the middle one, allocate twice: the freed id comes back first, then
      the counter goes on. */
  method PoolReuse() returns (a: nat, b: nat, c: nat, d: nat, e: nat)
    ensures [a, b, c, d, e] == [0, 1, 2, 1, 3]
  {
    var pool := new IdPools.IdPool(0, INVALID_ENTITY_ID);
    a := pool.Allocate();
    b := pool.Allocate();
    c := pool.Allocate();
    pool.Free(b);
    d := pool.Allocate();
    e := pool.Allocate();
  }

  /** test_remove_component, on store states: a one-column int store; the entity added after a
      removal takes the removed entity's slot, so its value lands in the middle of the column. */
  lemma RemoveThenEmplace()
    ensures var s3 := SystemModel.AddComponent(SystemModel.AddComponent(SystemModel.AddComponent(
              SystemModel.Empty([0]), 0, [123]), 1, [456]), 2, [789]);
      && s3.columns == [[123, 456, 789]]
      && SystemModel.RemoveComponent(s3, 1).Ok?
      && SystemModel.AddComponent(SystemModel.RemoveComponent(s3, 1).value, 3, [999]).columns == [[123, 999, 789]]
  {
    AddFirst();
    AddSecond();
    AddThird();
    RemoveMiddle();
    AddIntoHole();
  }

  /** A one-column int store in the scenario: its column, entity map, slot counter and free list. */
  function Slots(column: seq<int>, m: map<EntityId, nat>, current: nat, free: seq<nat>): (r: SystemModel.SystemState<int>) {
    SystemModel.SystemState([0], [column], m, PoolModel.Pool(0, SystemModel.SLOT_INDEX_MAX, current, free))
  }

  /** Entity 0 gets slot 0; 123 is appended. */
  lemma AddFirst()
    ensures SystemModel.AddComponent(SystemModel.Empty([0]), 0, [123]) == Slots([123], map[0 := 0], 1, [])
  {
    SystemModel.AddAppends(SystemModel.Empty([0]), 0, [123]);
    var t := SystemModel.AddComponent(SystemModel.Empty([0]), 0, [123]);
    assert t.columns[0] == [123];
    assert t.columns == [[123]];
  }

  /** Entity 1 gets slot 1; 456 is appended. */
  lemma AddSecond()
    ensures SystemModel.AddComponent(Slots([123], map[0 := 0], 1, []), 1, [456]) == Slots([123, 456], map[0 := 0, 1 := 1], 2, [])
  {
    SystemModel.AddAppends(Slots([123], map[0 := 0], 1, []), 1, [456]);
    var t := SystemModel.AddComponent(Slots([123], map[0 := 0], 1, []), 1, [456]);
    assert t.columns[0] == [123, 456];
    assert t.columns == [[123, 456]];
  }

  /** Entity 2 gets slot 2; 789 is appended. */
  lemma AddThird()
    ensures SystemModel.AddComponent(Slots([123, 456], map[0 := 0, 1 := 1], 2, []), 2, [789])
      == Slots([123, 456, 789], map[0 := 0, 1 := 1, 2 := 2], 3, [])
  {
    SystemModel.AddAppends(Slots([123, 456], map[0 := 0, 1 := 1], 2, []), 2, [789]);
    var t := SystemModel.AddComponent(Slots([123, 456], map[0 := 0, 1 := 1], 2, []), 2, [789]);
    assert t.columns[0] == [123, 456, 789];
    assert t.columns == [[123, 456, 789]];
  }

  /** Removing entity 1 queues slot 1 and leaves the column alone. */
  lemma RemoveMiddle()
    ensures SystemModel.RemoveComponent(Slots([123, 456, 789], map[0 := 0, 1 := 1, 2 := 2], 3, []), 1)
      == Ok(Slots([123, 456, 789], map[0 := 0, 2 := 2], 3, [1]))
  {
    var s := Slots([123, 456, 789], map[0 := 0, 1 := 1, 2 := 2], 3, []);
    assert s.entityMap[1] == 1;
    assert s.entityMap - {1} == map[0 := 0, 2 := 2];
    assert PoolModel.Free(s.pool, 1).freeIds == [1];
  }

  /** Entity 3 takes the queued slot 1; 999 overwrites 456. */
  lemma AddIntoHole()
    ensures SystemModel.AddComponent(Slots([123, 456, 789], map[0 := 0, 2 := 2], 3, [1]), 3, [999]).columns
      == [[123, 999, 789]]
  {
    var s := Slots([123, 456, 789], map[0 := 0, 2 := 2], 3, [1]);
    assert PoolModel.Allocate(s.pool).0 == 1;
    SystemModel.AddOverwrites(s, 3, [999]);
    var t := SystemModel.AddComponent(s, 3, [999]);
    assert t.columns[0] == [123, 456, 789][1 := 999] == [123, 999, 789];
  }

  /** test_world's entity bookkeeping, on a world without stores: entities 0, 1 and 2 made,
      1 removed, and the next one made gets 1 back and goes to the end of the list. */
  method EntityRecycling() returns (list: seq<EntityId>, status: Status)
    ensures status == Done
    ensures list == [0, 2, 1]
  {
    var world := MakeThree();
    ErasedMiddle();
    status := world.RemoveEntity(1);
    assert world.entityPool.Model() == PoolModel.Pool(0, INVALID_ENTITY_ID, 3, [1]);
    var delta := world.MakeEntity();
    list := world.Entities();
  }

  /** A world without stores in which entities 0, 1 and 2 have been made. */
  method MakeThree() returns (world: Worlds.World<int>)
    ensures fresh(world) && fresh(world.entityPool)
    ensures world.Valid() && world.systems == []
    ensures world.entityPool.Model() == PoolModel.Pool(0, INVALID_ENTITY_ID, 3, [])
    ensures world.entityList == [0, 1, 2]
  {
    world := new Worlds.World<int>([]);
    var alpha := world.MakeEntity();
    var bravo := world.MakeEntity();
    var charlie := world.MakeEntity();
  }

  /** std::remove of 1 from the list 0, 1, 2. */
  lemma ErasedMiddle()
    ensures Worlds.Erased([0, 1, 2], 1) == [0, 2]
  {
    assert [0, 1, 2][..2] == [0, 1] && [0, 1][..1] == [0] && [0][..0] == [];
  }
}
