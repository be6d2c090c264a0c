/** entity_component_system::system<Args...> (include/entity_component_system/system.hpp): a
    component store with one column per component type, an entity_id -> slot map and its own
    id_pool of slot indices.

    The heterogeneous tuple of column types is modelled as K columns over one value type V, with
    one value-initialised element per column (what vector::resize fills new places with).
    SystemModel gives the store's state as a value and proves the store's promises about it;
    Systems.ComponentSystem is the object whose methods update the fields in place. */
module SystemModel {
  import opened Faults
  import opened Entities
  import PoolModel

  /** The largest size_t on a 64-bit platform: the slot pool's max_id. */
  const SLOT_INDEX_MAX: nat := 0xFFFF_FFFF_FFFF_FFFF

  /** The state of a store: the value-initialised element of each column type, the columns
      (_data), the entity map (_entity_map) and the slot pool (_component_index_pool). */
  datatype SystemState<V> = SystemState(
    defaults: seq<V>,
    columns: seq<seq<V>>,
    entityMap: map<EntityId, nat>,
    pool: PoolModel.Pool)

  /** What every store keeps: one column per component type, all columns of equal length, every
      mapped slot inside them, distinct entities on distinct slots, and the slot pool's bookkeeping
      with the mapped slots as the live ids. */
  ghost predicate Valid<V>(s: SystemState<V>) {
    && |s.columns| == |s.defaults|
    && (forall c, d :: 0 <= c < |s.columns| && 0 <= d < |s.columns| ==> |s.columns[c]| == |s.columns[d]|)
    && (forall e, c :: e in s.entityMap && 0 <= c < |s.columns| ==> s.entityMap[e] < |s.columns[c]|)
    && (forall e1, e2 :: e1 in s.entityMap && e2 in s.entityMap && e1 != e2 ==> s.entityMap[e1] != s.entityMap[e2])
    && s.pool.minId == 0 && s.pool.maxId == SLOT_INDEX_MAX
    && PoolModel.Accounts(s.pool, s.entityMap.Values)
  }

  /** A default-constructed store. */
  function Empty<V>(defaults: seq<V>): (s: SystemState<V>)
    ensures Valid(s)
  {
    SystemState(defaults, seq(|defaults|, _ => []), map[], PoolModel.Init(0, SLOT_INDEX_MAX))
  }

  /** The non-const get_element followed by an assignment: a column shorter than index + 1 is
      resized to index + 1 with value-initialised elements, then position index is overwritten. */
  function WriteElement<V>(column: seq<V>, index: nat, v: V, filler: V): (r: seq<V>)
    ensures |r| == if index < |column| then |column| else index + 1
    ensures r[index] == v
    ensures forall i :: 0 <= i < |column| && i != index ==> r[i] == column[i]
    ensures forall i :: |column| <= i < |r| && i != index ==> r[i] == filler
  {
    var grown := if index >= |column| then column + seq(index + 1 - |column|, _ => filler) else column;
    grown[index := v]
  }

  /** get_component_from_index(index) = initializer: every column written at index. */
  function WriteRow<V>(columns: seq<seq<V>>, defaults: seq<V>, index: nat, row: seq<V>): (r: seq<seq<V>>)
    requires |defaults| == |columns| == |row|
    ensures |r| == |columns|
    ensures forall c :: 0 <= c < |r| ==> |r[c]| == (if index < |columns[c]| then |columns[c]| else index + 1)
    ensures forall c :: 0 <= c < |r| ==> r[c][index] == row[c]
    ensures forall c, i :: 0 <= c < |r| && 0 <= i < |columns[c]| && i != index ==> r[c][i] == columns[c][i]
  {
    seq(|columns|, c requires 0 <= c < |columns| => WriteElement(columns[c], index, row[c], defaults[c]))
  }

  /** The component tuple stored at slot index. */
  function RowAt<V>(columns: seq<seq<V>>, index: nat): (r: seq<V>)
    requires forall c :: 0 <= c < |columns| ==> index < |columns[c]|
    ensures |r| == |columns|
    ensures forall c :: 0 <= c < |r| ==> r[c] == columns[c][index]
  {
    seq(|columns|, c requires 0 <= c < |columns| => columns[c][index])
  }

  /** add_component(id, initializer) (emplace builds the initializer from its arguments): a slot is
      allocated first; only when id was not yet registered is it mapped to that slot and the row
      written there. */
  function AddComponent<V>(s: SystemState<V>, id: EntityId, row: seq<V>): (r: SystemState<V>)
    requires |s.defaults| == |s.columns| == |row|
    ensures r.defaults == s.defaults && |r.columns| == |s.columns|
    ensures r.pool == PoolModel.Allocate(s.pool).1
    ensures id in s.entityMap ==> r.entityMap == s.entityMap && r.columns == s.columns
    ensures id !in s.entityMap ==> r.entityMap == s.entityMap[id := PoolModel.Allocate(s.pool).0]
    ensures id !in s.entityMap ==>
      forall c :: 0 <= c < |r.columns| ==> PoolModel.Allocate(s.pool).0 < |r.columns[c]| && r.columns[c][PoolModel.Allocate(s.pool).0] == row[c]
  {
    var (index, pool) := PoolModel.Allocate(s.pool);
    if id in s.entityMap then
      s.(pool := pool)
    else
      s.(pool := pool, entityMap := s.entityMap[id := index], columns := WriteRow(s.columns, s.defaults, index, row))
  }

  /** A new entity whose slot is the common end of the columns appends its row to every column. */
  lemma AddAppends<V>(s: SystemState<V>, id: EntityId, row: seq<V>)
    requires |s.defaults| == |s.columns| == |row| && id !in s.entityMap
    requires forall c :: 0 <= c < |s.columns| ==> |s.columns[c]| == PoolModel.Allocate(s.pool).0
    ensures AddComponent(s, id, row).entityMap == s.entityMap[id := PoolModel.Allocate(s.pool).0]
    ensures AddComponent(s, id, row).pool == PoolModel.Allocate(s.pool).1
    ensures |AddComponent(s, id, row).columns| == |s.columns|
    ensures forall c :: 0 <= c < |s.columns| ==> AddComponent(s, id, row).columns[c] == s.columns[c] + [row[c]]
  {
    forall c | 0 <= c < |s.columns|
      ensures AddComponent(s, id, row).columns[c] == s.columns[c] + [row[c]]
    {
      var r := AddComponent(s, id, row).columns[c];
      assert |r| == |s.columns[c]| + 1;
      assert forall i :: 0 <= i < |r| ==> r[i] == (s.columns[c] + [row[c]])[i];
    }
  }

  /** A new entity whose slot lies inside every column overwrites that position in place. */
  lemma AddOverwrites<V>(s: SystemState<V>, id: EntityId, row: seq<V>)
    requires |s.defaults| == |s.columns| == |row| && id !in s.entityMap
    requires forall c :: 0 <= c < |s.columns| ==> PoolModel.Allocate(s.pool).0 < |s.columns[c]|
    ensures AddComponent(s, id, row).entityMap == s.entityMap[id := PoolModel.Allocate(s.pool).0]
    ensures AddComponent(s, id, row).pool == PoolModel.Allocate(s.pool).1
    ensures |AddComponent(s, id, row).columns| == |s.columns|
    ensures forall c :: 0 <= c < |s.columns| ==>
      AddComponent(s, id, row).columns[c] == s.columns[c][PoolModel.Allocate(s.pool).0 := row[c]]
  {
  }

  /** remove_component(id): the map lookup throws for an unregistered id; otherwise the slot goes
      back to the pool and the mapping is erased, the columns left as they are. */
  function RemoveComponent<V>(s: SystemState<V>, id: EntityId): (r: Result<SystemState<V>>)
    ensures r.Err? <==> id !in s.entityMap
  {
    if id !in s.entityMap then Err(OutOfRange)
    else Ok(s.(pool := PoolModel.Free(s.pool, s.entityMap[id]), entityMap := s.entityMap - {id}))
  }

  /** get_component(id): the component tuple at id's slot, or the exception map::at throws. */
  function GetComponent<V>(s: SystemState<V>, id: EntityId): (r: Result<seq<V>>)
    requires Valid(s)
    ensures r.Err? <==> id !in s.entityMap
    ensures r.Ok? ==> |r.value| == |s.columns|
  {
    if id !in s.entityMap then Err(OutOfRange)
    else Ok(RowAt(s.columns, s.entityMap[id]))
  }

  /** Assignment to member c through the view get_component(id) returns (the view holds references
      into the columns). */
  function WriteMember<V>(s: SystemState<V>, id: EntityId, c: nat, v: V): (r: Result<SystemState<V>>)
    requires Valid(s) && c < |s.columns|
    ensures r.Err? <==> id !in s.entityMap
  {
    if id !in s.entityMap then Err(OutOfRange)
    else Ok(s.(columns := s.columns[c := s.columns[c][s.entityMap[id] := v]]))
  }

  /** clear(): every column emptied, the map emptied, the slot pool reset. */
  function Clear<V>(s: SystemState<V>): (r: SystemState<V>)
    ensures r.defaults == s.defaults && |r.columns| == |s.columns|
    ensures forall c :: 0 <= c < |r.columns| ==> r.columns[c] == []
    ensures r.entityMap == map[] && r.pool.freeIds == [] && r.pool.current == s.pool.minId
    ensures Valid(s) ==> Valid(r)
  {
    s.(columns := seq(|s.columns|, _ => []), entityMap := map[], pool := PoolModel.Clear(s.pool))
  }

  /** Clearing a store puts it back in its constructed state. */
  lemma ClearIsEmpty<V>(s: SystemState<V>)
    requires Valid(s)
    ensures Clear(s) == Empty(s.defaults)
  {
  }

  /** The values of a map with a new key bound. */
  lemma ValuesAfterInsert(m: map<EntityId, nat>, id: EntityId, index: nat)
    requires id !in m
    ensures m[id := index].Values == m.Values + {index}
  {
    var n := m[id := index];
    forall x | x in m.Values ensures x in n.Values {
      var e :| e in m && m[e] == x;
      assert n[e] == x;
    }
    assert n[id] == index;
  }

  /** The values of an injective map with a key erased. */
  lemma ValuesAfterErase(m: map<EntityId, nat>, id: EntityId)
    requires id in m
    requires forall e1, e2 :: e1 in m && e2 in m && e1 != e2 ==> m[e1] != m[e2]
    ensures (m - {id}).Values == m.Values - {m[id]}
  {
    var n := m - {id};
    forall x | x in m.Values - {m[id]} ensures x in n.Values {
      var e :| e in m && m[e] == x;
      assert e != id && n[e] == x;
    }
  }

  /** add_component keeps the store's invariant, duplicate or not, as long as a registering add
      finds the slot pool not exhausted. */
  lemma AddKeepsValid<V>(s: SystemState<V>, id: EntityId, row: seq<V>)
    requires Valid(s) && |row| == |s.columns|
    requires id in s.entityMap || PoolModel.Available(s.pool)
    ensures Valid(AddComponent(s, id, row))
  {
    var (index, pool) := PoolModel.Allocate(s.pool);
    var live := s.entityMap.Values;
    if PoolModel.Available(s.pool) {
      PoolModel.AllocateKeepsAccounts(s.pool, live);
      if id in s.entityMap {
        PoolModel.AccountsShrink(pool, live + {index}, live);
      } else {
        ValuesAfterInsert(s.entityMap, id, index);
        var t := AddComponent(s, id, row);
        forall e | e in s.entityMap ensures s.entityMap[e] != index {
          assert s.entityMap[e] in live;
        }
        forall c, d | 0 <= c < |t.columns| && 0 <= d < |t.columns|
          ensures |t.columns[c]| == |t.columns[d]|
        {
          assert |s.columns[c]| == |s.columns[d]|;
        }
      }
    } else {
      PoolModel.SentinelIffExhausted(s.pool, live);
    }
  }

  /** Round trip: adding to an unregistered entity maps it to the freshly allocated slot, writes
      the row there, and a later get_component returns that row. */
  lemma AddThenGet<V>(s: SystemState<V>, id: EntityId, row: seq<V>)
    requires Valid(s) && |row| == |s.columns| && id !in s.entityMap
    requires PoolModel.Available(s.pool)
    ensures AddComponent(s, id, row).entityMap == s.entityMap[id := PoolModel.Allocate(s.pool).0]
    ensures Valid(AddComponent(s, id, row)) && GetComponent(AddComponent(s, id, row), id) == Ok(row)
  {
    AddKeepsValid(s, id, row);
    var t := AddComponent(s, id, row);
    var index := PoolModel.Allocate(s.pool).0;
    assert RowAt(t.columns, index) == row;
  }

  /** Distinct entities occupy distinct slots: an add never changes what get_component returns for
      any other entity. */
  lemma AddKeepsOthers<V>(s: SystemState<V>, id: EntityId, row: seq<V>, other: EntityId)
    requires Valid(s) && |row| == |s.columns| && other != id
    requires id in s.entityMap || PoolModel.Available(s.pool)
    ensures Valid(AddComponent(s, id, row))
    ensures GetComponent(AddComponent(s, id, row), other) == GetComponent(s, other)
  {
    AddKeepsValid(s, id, row);
    var t := AddComponent(s, id, row);
    if other in s.entityMap && id !in s.entityMap {
      var index := PoolModel.Allocate(s.pool).0;
      PoolModel.AllocateKeepsAccounts(s.pool, s.entityMap.Values);
      var slot := s.entityMap[other];
      assert slot in s.entityMap.Values;
      assert RowAt(t.columns, slot) == RowAt(s.columns, slot);
    }
  }

  /** Slot k is leaked: no entity is mapped to it, it is not queued, and the counter has passed
      it, so nothing short of clear makes it reachable again. */
  ghost predicate Leaked<V>(s: SystemState<V>, k: nat) {
    k !in s.entityMap.Values && k !in s.pool.freeIds && k < s.pool.current
  }

  /** A duplicate add leaves the map and the columns untouched but still consumes a slot, which
      is then leaked. */
  lemma DuplicateAddLeaksSlot<V>(s: SystemState<V>, id: EntityId, row: seq<V>)
    requires Valid(s) && |row| == |s.columns| && id in s.entityMap
    requires PoolModel.Available(s.pool)
    ensures AddComponent(s, id, row) == s.(pool := PoolModel.Allocate(s.pool).1)
    ensures Leaked(AddComponent(s, id, row), PoolModel.Allocate(s.pool).0)
  {
    var (index, pool) := PoolModel.Allocate(s.pool);
    PoolModel.AllocateKeepsAccounts(s.pool, s.entityMap.Values);
    assert index in s.entityMap.Values + {index};
  }

  /** A leaked slot is not what the next allocation hands out. */
  lemma LeakedNotIssued<V>(s: SystemState<V>, k: nat)
    requires Leaked(s, k)
    ensures PoolModel.Allocate(s.pool).0 != k
  {
    if s.pool.freeIds != [] {
      assert s.pool.freeIds[|s.pool.freeIds| - 1] in s.pool.freeIds;
    }
  }

  /** A leaked slot stays leaked through any later add. */
  lemma LeakedAfterAdd<V>(s: SystemState<V>, id: EntityId, row: seq<V>, k: nat)
    requires Valid(s) && |row| == |s.columns| && Leaked(s, k)
    requires id in s.entityMap || PoolModel.Available(s.pool)
    ensures Leaked(AddComponent(s, id, row), k)
  {
    var (index, pool) := PoolModel.Allocate(s.pool);
    LeakedNotIssued(s, k);
    if s.pool.freeIds != [] {
      var n := |s.pool.freeIds| - 1;
      assert pool.freeIds == s.pool.freeIds[..n];
      assert forall x :: x in pool.freeIds ==> x in s.pool.freeIds;
    }
    if id !in s.entityMap {
      ValuesAfterInsert(s.entityMap, id, index);
    }
  }

  /** A leaked slot stays leaked through any later remove. */
  lemma LeakedAfterRemove<V>(s: SystemState<V>, id: EntityId, k: nat)
    requires Valid(s) && Leaked(s, k)
    ensures RemoveComponent(s, id).Ok? ==> Leaked(RemoveComponent(s, id).value, k)
  {
    if id in s.entityMap {
      ValuesAfterErase(s.entityMap, id);
      assert s.entityMap[id] in s.entityMap.Values;
    }
  }

  /** remove_component on a registered entity erases its mapping and queues its slot, touching no
      column and no other mapping; the store stays valid and the entity is no longer found. */
  lemma RemoveFacts<V>(s: SystemState<V>, id: EntityId)
    requires Valid(s) && id in s.entityMap
    ensures RemoveComponent(s, id).Ok?
    ensures var t := RemoveComponent(s, id).value;
      && t.columns == s.columns
      && t.entityMap == s.entityMap - {id}
      && t.pool == PoolModel.Free(s.pool, s.entityMap[id])
      && Valid(t)
      && GetComponent(t, id) == Err(OutOfRange)
      && forall other :: other != id ==> GetComponent(t, other) == GetComponent(s, other)
  {
    ValuesAfterErase(s.entityMap, id);
    PoolModel.FreeKeepsAccounts(s.pool, s.entityMap.Values, s.entityMap[id]);
  }

  /** Slot reuse: after removing e1, the next add for an entity that is then unregistered takes
      e1's old slot (LIFO pool). */
  lemma RemoveThenAddReusesSlot<V>(s: SystemState<V>, e1: EntityId, e2: EntityId, row: seq<V>)
    requires Valid(s) && e1 in s.entityMap && |row| == |s.columns|
    requires e2 == e1 || e2 !in s.entityMap
    ensures RemoveComponent(s, e1).Ok?
    ensures AddComponent(RemoveComponent(s, e1).value, e2, row).entityMap[e2] == s.entityMap[e1]
    ensures Valid(AddComponent(RemoveComponent(s, e1).value, e2, row))
    ensures GetComponent(AddComponent(RemoveComponent(s, e1).value, e2, row), e2) == Ok(row)
  {
    RemoveFacts(s, e1);
    var t := RemoveComponent(s, e1).value;
    PoolModel.FreeThenAllocate(s.pool, s.entityMap[e1]);
    AddThenGet(t, e2, row);
  }

  /** Writing member c through get_component(id) changes only that member of id's component; the
      store stays valid and every other entity reads as before. */
  lemma WriteMemberFacts<V>(s: SystemState<V>, id: EntityId, c: nat, v: V)
    requires Valid(s) && c < |s.columns| && id in s.entityMap
    ensures WriteMember(s, id, c, v).Ok?
    ensures Valid(WriteMember(s, id, c, v).value)
    ensures GetComponent(WriteMember(s, id, c, v).value, id) == Ok(GetComponent(s, id).value[c := v])
    ensures forall other :: other != id ==> GetComponent(WriteMember(s, id, c, v).value, other) == GetComponent(s, other)
  {
    var t := WriteMember(s, id, c, v).value;
    var slot := s.entityMap[id];
    assert Valid(t) by {
      forall c1, d | 0 <= c1 < |t.columns| && 0 <= d < |t.columns|
        ensures |t.columns[c1]| == |t.columns[d]|
      {
        assert |s.columns[c1]| == |s.columns[d]|;
      }
    }
    assert RowAt(t.columns, slot) == RowAt(s.columns, slot)[c := v];
    forall other | other != id
      ensures GetComponent(t, other) == GetComponent(s, other)
    {
      if other in s.entityMap {
        assert RowAt(t.columns, s.entityMap[other]) == RowAt(s.columns, s.entityMap[other]);
      }
    }
  }

  /** After clear the next add uses slot min_id (0) and the row reads back. */
  lemma ClearThenAdd<V>(s: SystemState<V>, id: EntityId, row: seq<V>)
    requires Valid(s) && |row| == |s.columns|
    ensures AddComponent(Clear(s), id, row).entityMap == map[id := 0]
    ensures GetComponent(AddComponent(Clear(s), id, row), id) == Ok(row)
  {
    ClearIsEmpty(s);
    AddThenGet(Clear(s), id, row);
  }
}

/** The store object. */
module Systems {
  import opened Faults
  import opened Entities
  import PoolModel
  import IdPools
  import SystemModel

  class ComponentSystem<V> {
    /** The value-initialised element of each component type. */
    const defaults: seq<V>
    const indexPool: IdPools.IdPool
    var columns: seq<seq<V>>
    var entityMap: map<EntityId, nat>

    /** The store's state as a value. */
    function Model(): SystemModel.SystemState<V>
      reads this, indexPool
    {
      SystemModel.SystemState(defaults, columns, entityMap, indexPool.Model())
    }

    ghost predicate Valid()
      reads this, indexPool
    {
      SystemModel.Valid(Model())
    }

    constructor (defaults: seq<V>)
      ensures Model() == SystemModel.Empty(defaults) && Valid()
      ensures fresh(indexPool)
    {
      this.defaults := defaults;
      indexPool := new IdPools.IdPool(0, SystemModel.SLOT_INDEX_MAX);
      columns := seq(|defaults|, _ => []);
      entityMap := map[];
    }

    /** get_members<c>(): column c; every registered entity's member c sits in it at its slot. */
    method GetMembers(c: nat) returns (members: seq<V>)
      requires Valid() && c < |columns|
      ensures members == columns[c]
      ensures forall id :: id in entityMap ==>
        entityMap[id] < |members| && members[entityMap[id]] == SystemModel.GetComponent(Model(), id).value[c]
    {
      members := columns[c];
    }

    method AddComponent(id: EntityId, initializer: seq<V>)
      requires Valid() && |initializer| == |columns|
      requires id in entityMap || PoolModel.Available(indexPool.Model())
      modifies this, indexPool
      ensures Valid()
      ensures Model() == SystemModel.AddComponent(old(Model()), id, initializer)
    {
      SystemModel.AddKeepsValid(Model(), id, initializer);
      var index := AllocateComponentIndex();
      var inserted := RegisterEntity(id, index);
      if inserted {
        WriteRow(index, initializer);
      }
    }

    /** emplace(id, args...): add_component with the tuple made from args. */
    method Emplace(id: EntityId, args: seq<V>)
      requires Valid() && |args| == |columns|
      requires id in entityMap || PoolModel.Available(indexPool.Model())
      modifies this, indexPool
      ensures Valid()
      ensures Model() == SystemModel.AddComponent(old(Model()), id, args)
    {
      AddComponent(id, args);
    }

    method RemoveComponent(id: EntityId) returns (status: Status)
      requires Valid()
      modifies this, indexPool
      ensures Valid()
      ensures match SystemModel.RemoveComponent(old(Model()), id)
        case Ok(t) => status == Done && Model() == t
        case Err(f) => status == Thrown(f) && Model() == old(Model())
    {
      var index := GetComponentIndex(id);
      if index.Err? {
        return Thrown(index.error);
      }
      SystemModel.RemoveFacts(Model(), id);
      FreeComponentIndex(index.value);
      var erased := DeregisterEntity(id);
      status := Done;
    }

    /** get_component(id), both overloads. The non-const one would grow a column shorter than the
        slot, but a registered slot is always inside the columns, so neither changes anything. */
    method GetComponent(id: EntityId) returns (r: Result<seq<V>>)
      requires Valid()
      ensures r == SystemModel.GetComponent(Model(), id)
    {
      var index := GetComponentIndex(id);
      if index.Err? {
        return Err(index.error);
      }
      r := Ok(SystemModel.RowAt(columns, index.value));
    }

    /** Assignment to member c through the view the non-const get_component(id) returns. */
    method WriteMember(id: EntityId, c: nat, v: V) returns (status: Status)
      requires Valid() && c < |columns|
      modifies this
      ensures Valid()
      ensures match SystemModel.WriteMember(old(Model()), id, c, v)
        case Ok(t) => status == Done && Model() == t
        case Err(f) => status == Thrown(f) && Model() == old(Model())
    {
      var index := GetComponentIndex(id);
      if index.Err? {
        return Thrown(index.error);
      }
      SystemModel.WriteMemberFacts(Model(), id, c, v);
      columns := columns[c := columns[c][index.value := v]];
      status := Done;
    }

    /** clear(): every column cleared in turn, then the map and the slot pool. */
    method Clear()
      requires Valid()
      modifies this, indexPool
      ensures Valid()
      ensures Model() == SystemModel.Clear(old(Model()))
      ensures Model() == SystemModel.Empty(defaults)
    {
      var c := 0;
      while c < |columns|
        invariant 0 <= c <= |columns| == |old(columns)|
        invariant forall d :: 0 <= d < c ==> columns[d] == []
        invariant forall d :: c <= d < |columns| ==> columns[d] == old(columns)[d]
        invariant entityMap == old(entityMap)
      {
        columns := columns[c := []];
        c := c + 1;
      }
      entityMap := map[];
      indexPool.Clear();
      SystemModel.ClearIsEmpty(old(Model()));
    }

    /** get_component_from_index(index) = row: each column in turn through get_element. */
    method WriteRow(index: nat, row: seq<V>)
      requires |row| == |columns| == |defaults|
      modifies this`columns
      ensures columns == SystemModel.WriteRow(old(columns), defaults, index, row)
    {
      var c := 0;
      while c < |columns|
        invariant 0 <= c <= |columns| == |old(columns)|
        invariant forall d :: 0 <= d < c ==> columns[d] == SystemModel.WriteElement(old(columns)[d], index, row[d], defaults[d])
        invariant forall d :: c <= d < |columns| ==> columns[d] == old(columns)[d]
      {
        AssignElement(c, index, row[c]);
        c := c + 1;
      }
    }

    /** get_element<c>(data(), index) = v, through the non-const get_element that resizes. */
    method AssignElement(c: nat, index: nat, v: V)
      requires c < |columns| && c < |defaults|
      modifies this`columns
      ensures columns == old(columns)[c := SystemModel.WriteElement(old(columns)[c], index, v, defaults[c])]
    {
      var column := columns[c];
      if index >= |column| {
        column := column + seq(index + 1 - |column|, _ => defaults[c]);
      }
      columns := columns[c := column[index := v]];
    }

    /** register_entity: map::emplace, which inserts only an absent key and says whether it did. */
    method RegisterEntity(id: EntityId, index: nat) returns (inserted: bool)
      modifies this`entityMap
      ensures inserted <==> id !in old(entityMap)
      ensures entityMap == if inserted then old(entityMap)[id := index] else old(entityMap)
    {
      inserted := id !in entityMap;
      if inserted {
        entityMap := entityMap[id := index];
      }
    }

    /** deregister_entity: map::erase, saying whether a key was erased. */
    method DeregisterEntity(id: EntityId) returns (erased: bool)
      modifies this`entityMap
      ensures erased <==> id in old(entityMap)
      ensures entityMap == old(entityMap) - {id}
    {
      erased := id in entityMap;
      entityMap := entityMap - {id};
    }

    /** get_component_index: map::at, which throws std::out_of_range for an absent key. */
    method GetComponentIndex(id: EntityId) returns (r: Result<nat>)
      ensures r.Ok? <==> id in entityMap
      ensures r.Ok? ==> r.value == entityMap[id]
      ensures r.Err? ==> r.error == OutOfRange
    {
      if id in entityMap {
        r := Ok(entityMap[id]);
      } else {
        r := Err(OutOfRange);
      }
    }

    method AllocateComponentIndex() returns (index: nat)
      modifies indexPool
      ensures (index, indexPool.Model()) == PoolModel.Allocate(old(indexPool.Model()))
    {
      index := indexPool.Allocate();
    }

    method FreeComponentIndex(index: nat)
      modifies indexPool
      ensures indexPool.Model() == PoolModel.Free(old(indexPool.Model()), index)
    {
      indexPool.Free(index);
    }
  }
}
