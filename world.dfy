/** entity_component_system::world<Systems...> (include/entity_component_system/world.hpp): a
    fixed, ordered collection of stores, the entity id_pool and the deque of live entities.

    The tuple of stores is a fixed-length sequence of ComponentSystem objects, and
    utility::for_each_in_tuple is a loop over it from the first store to the last. */
module Worlds {
  import opened Faults
  import opened Entities
  import PoolModel
  import IdPools
  import SystemModel
  import Systems

  /** std::remove followed by erase on the entity list: every occurrence of id gone, the other ids
      in their original order. */
  function Erased(list: seq<EntityId>, id: EntityId): (r: seq<EntityId>)
    ensures |r| <= |list|
    ensures forall x :: x in r ==> x != id && x in list
    decreases |list|
  {
    if list == [] then []
    else Erased(list[..|list| - 1], id) + (if list[|list| - 1] == id then [] else [list[|list| - 1]])
  }

  predicate NoDuplicates(list: seq<EntityId>) {
    forall i, j :: 0 <= i < j < |list| ==> list[i] != list[j]
  }

  /** The ids in a list, as the set the entity pool's bookkeeping speaks of. */
  ghost function Ids(list: seq<EntityId>): (r: set<nat>)
    ensures forall x :: x in list ==> x as nat in r
  {
    set x: nat | x in list
  }

  /** Erasing from a prefix one element longer. */
  lemma ErasedStep(list: seq<EntityId>, id: EntityId, i: nat)
    requires i < |list|
    ensures Erased(list[..i + 1], id) == Erased(list[..i], id) + (if list[i] == id then [] else [list[i]])
  {
    assert list[..i + 1][..i] == list[..i];
  }

  /** Exactly the occurrences of id are erased: each other id keeps its number of occurrences. */
  lemma {:induction false} ErasedCounts(list: seq<EntityId>, id: EntityId)
    ensures multiset(Erased(list, id)) == multiset(list)[id := 0]
    decreases |list|
  {
    if list != [] {
      var n := |list| - 1;
      ErasedCounts(list[..n], id);
      assert list == list[..n] + [list[n]];
      assert multiset(list) == multiset(list[..n]) + multiset{list[n]};
    }
  }

  /** Erasing keeps relative order: it distributes over concatenation. */
  lemma {:induction false} ErasedConcat(a: seq<EntityId>, b: seq<EntityId>, id: EntityId)
    ensures Erased(a + b, id) == Erased(a, id) + Erased(b, id)
    decreases |b|
  {
    if b == [] {
      assert a + b == a;
    } else {
      var n := |b| - 1;
      assert (a + b)[..|a + b| - 1] == a + b[..n];
      ErasedConcat(a, b[..n], id);
    }
  }

  /** A list without id is left as it is. */
  lemma {:induction false} ErasedAbsent(list: seq<EntityId>, id: EntityId)
    requires id !in list
    ensures Erased(list, id) == list
    decreases |list|
  {
    if list != [] {
      var n := |list| - 1;
      assert list[n] != id && id !in list[..n] by {
        assert list[n] in list;
        assert forall k :: 0 <= k < n ==> list[..n][k] == list[k];
      }
      ErasedAbsent(list[..n], id);
      assert list == list[..n] + [list[n]];
    }
  }

  /** The ids left after erasing are exactly the other ids of the list. */
  lemma ErasedMembers(list: seq<EntityId>, id: EntityId)
    ensures forall x :: x in Erased(list, id) <==> x in list && x != id
  {
    ErasedCounts(list, id);
    forall x | x in list && x != id
      ensures x in Erased(list, id)
    {
      assert x in multiset(list);
      assert x in multiset(Erased(list, id));
    }
  }

  /** Erasing from a list without duplicates keeps it without duplicates and removes exactly id
      from its set of ids. */
  lemma ErasedUnique(list: seq<EntityId>, id: EntityId)
    requires NoDuplicates(list)
    ensures NoDuplicates(Erased(list, id))
    ensures Ids(Erased(list, id)) == Ids(list) - {id}
  {
    var r := Erased(list, id);
    ErasedMembers(list, id);
    forall i, j | 0 <= i < j < |r| ensures r[i] != r[j] {
      if r[i] == r[j] {
        ErasedCounts(list, id);
        MultiplicityAtLeastTwo(r, i, j);
        MultiplicityAtMostOne(list, r[i]);
        assert false;
      }
    }
  }

  /** Two equal elements at different places occur at least twice. */
  lemma MultiplicityAtLeastTwo(s: seq<EntityId>, i: nat, j: nat)
    requires i < j < |s| && s[i] == s[j]
    ensures multiset(s)[s[i]] >= 2
  {
    assert s == s[..i] + [s[i]] + s[i + 1..j] + [s[j]] + s[j + 1..];
    assert multiset(s) == multiset(s[..i]) + multiset{s[i]} + multiset(s[i + 1..j]) + multiset{s[j]} + multiset(s[j + 1..]);
  }

  /** In a list without duplicates every id occurs at most once. */
  lemma {:induction false} MultiplicityAtMostOne(s: seq<EntityId>, x: EntityId)
    requires NoDuplicates(s)
    ensures multiset(s)[x] <= 1
    decreases |s|
  {
    if s != [] {
      var n := |s| - 1;
      assert s == s[..n] + [s[n]];
      MultiplicityAtMostOne(s[..n], x);
      if s[n] == x {
        assert x !in s[..n];
      }
    }
  }

  /** for_each_in_tuple over the stores with remove_component(id), as remove_entity runs it: the
      stores afterwards, and whether every call returned rather than threw. */
  function RemoveFromAll<V>(sts: seq<SystemModel.SystemState<V>>, id: EntityId): (r: (seq<SystemModel.SystemState<V>>, bool))
    ensures |r.0| == |sts|
    ensures !r.1 ==> exists j :: 0 <= j < |sts| && id !in sts[j].entityMap
    decreases |sts|
  {
    if sts == [] then ([], true)
    else
      match SystemModel.RemoveComponent(sts[0], id)
      case Err(_) => (sts, false)
      case Ok(t) =>
        var rest := RemoveFromAll(sts[1..], id);
        ([t] + rest.0, rest.1)
  }

  /** The position of the first store in which id is not registered (|sts| when there is none). */
  function FirstLacking<V>(sts: seq<SystemModel.SystemState<V>>, id: EntityId): (k: nat)
    ensures k <= |sts|
    ensures forall j :: 0 <= j < k ==> id in sts[j].entityMap
    ensures k < |sts| ==> id !in sts[k].entityMap
    decreases |sts|
  {
    if sts == [] || id !in sts[0].entityMap then 0 else 1 + FirstLacking(sts[1..], id)
  }

  /** FirstLacking is the first position whose store lacks id. */
  lemma {:induction false} FirstLackingIs<V>(sts: seq<SystemModel.SystemState<V>>, id: EntityId, i: nat)
    requires i <= |sts|
    requires forall j :: 0 <= j < i ==> id in sts[j].entityMap
    requires i < |sts| ==> id !in sts[i].entityMap
    ensures FirstLacking(sts, id) == i
    decreases i
  {
    if i > 0 {
      FirstLackingIs(sts[1..], id, i - 1);
    }
  }

  lemma {:induction false} RemoveFromAllAt<V>(sts: seq<SystemModel.SystemState<V>>, id: EntityId, j: nat)
    requires j < |sts|
    ensures |RemoveFromAll(sts, id).0| == |sts|
    ensures RemoveFromAll(sts, id).1 <==> FirstLacking(sts, id) == |sts|
    ensures RemoveFromAll(sts, id).0[j] ==
      (if j < FirstLacking(sts, id) then SystemModel.RemoveComponent(sts[j], id).value else sts[j])
    decreases |sts|
  {
    if id in sts[0].entityMap && |sts| > 1 {
      RemoveFromAllAt(sts[1..], id, if j == 0 then 0 else j - 1);
    }
  }

  /** The fan-out completes exactly when id is registered in every store. The stores before the
      first one lacking id have had id removed; that store and the ones after it (when the loop
      threw) are as they were. */
  lemma RemoveFromAllFacts<V>(sts: seq<SystemModel.SystemState<V>>, id: EntityId)
    ensures |RemoveFromAll(sts, id).0| == |sts|
    ensures RemoveFromAll(sts, id).1 <==> forall j :: 0 <= j < |sts| ==> id in sts[j].entityMap
    ensures forall j :: 0 <= j < |sts| ==>
      RemoveFromAll(sts, id).0[j] == (if j < FirstLacking(sts, id) then SystemModel.RemoveComponent(sts[j], id).value else sts[j])
  {
    if sts == [] {
    } else {
      RemoveFromAllAt(sts, id, 0);
      forall j | 0 <= j < |sts|
        ensures RemoveFromAll(sts, id).0[j] ==
          (if j < FirstLacking(sts, id) then SystemModel.RemoveComponent(sts[j], id).value else sts[j])
      {
        RemoveFromAllAt(sts, id, j);
      }
    }
  }

  /** The fan-out keeps every store valid. */
  lemma RemoveFromAllKeepsValid<V>(sts: seq<SystemModel.SystemState<V>>, id: EntityId)
    requires forall j :: 0 <= j < |sts| ==> SystemModel.Valid(sts[j])
    ensures |RemoveFromAll(sts, id).0| == |sts|
    ensures forall j :: 0 <= j < |sts| ==> SystemModel.Valid(RemoveFromAll(sts, id).0[j])
  {
    RemoveFromAllFacts(sts, id);
    forall j | 0 <= j < FirstLacking(sts, id) {
      SystemModel.RemoveFacts(sts[j], id);
    }
  }

  /** The world. Its systems live inside a std::tuple member, by value, so the model keeps each
      store's state as a SystemState and applies to it the operations that
      Systems.ComponentSystem's methods are proved to perform; the entity pool is an IdPool object
      and the live-entity deque a sequence field. */
  class World<V> {
    var systems: seq<SystemModel.SystemState<V>>
    const entityPool: IdPools.IdPool
    var entityList: seq<EntityId>

    /** Every store keeps its own invariant. */
    ghost predicate StoresValid()
      reads this
    {
      forall j :: 0 <= j < |systems| ==> SystemModel.Valid(systems[j])
    }

    ghost predicate Valid()
      reads this, entityPool
    {
      && StoresValid()
      && PoolModel.Valid(entityPool.Model())
      && entityPool.minId == 0 && entityPool.maxId == INVALID_ENTITY_ID
    }

    /** The live-entity list agrees with the entity pool: no id listed twice, and the listed ids,
        the queued ids and the never-issued range are pairwise disjoint. This holds as long as
        ids go back to the pool only through remove_entity of listed entities. */
    ghost predicate Unique()
      reads this, entityPool
    {
      NoDuplicates(entityList) && PoolModel.Accounts(entityPool.Model(), Ids(entityList))
    }

    /** world(): every store default-constructed (one per element of columnDefaults, which gives
        each store's column defaults), an empty pool and an empty list. */
    constructor (columnDefaults: seq<seq<V>>)
      ensures Valid() && Unique()
      ensures |systems| == |columnDefaults|
      ensures forall j :: 0 <= j < |systems| ==> systems[j] == SystemModel.Empty(columnDefaults[j])
      ensures entityPool.Model() == PoolModel.Init(0, INVALID_ENTITY_ID) && entityList == []
      ensures fresh(entityPool)
    {
      systems := seq(|columnDefaults|, j requires 0 <= j < |columnDefaults| => SystemModel.Empty(columnDefaults[j]));
      entityPool := new IdPools.IdPool(0, INVALID_ENTITY_ID);
      entityList := [];
    }

    /** get_system<I>(): the I-th store in declaration order. */
    function GetSystem(i: nat): (s: SystemModel.SystemState<V>)
      requires i < |systems|
      reads this
      ensures StoresValid() ==> SystemModel.Valid(s)
    {
      systems[i]
    }

    /** entities(): the live-entity list, which never holds invalid_entity_id or a repeat while
        ids are recycled only through remove_entity. */
    method Entities() returns (list: seq<EntityId>)
      requires Valid()
      ensures list == entityList
      ensures Unique() ==> NoDuplicates(list) && INVALID_ENTITY_ID !in list
    {
      list := entityList;
      if Unique() {
        PoolModel.SentinelIffExhausted(entityPool.Model(), Ids(entityList));
        assert INVALID_ENTITY_ID in list ==> INVALID_ENTITY_ID in Ids(list);
      }
    }

    /** make_entity(): the entity pool's allocate() result, appended to the list; no store changes.
        Under the bookkeeping and with the pool not exhausted the new id is not invalid_entity_id
        and was not live. */
    method MakeEntity() returns (id: EntityId)
      requires Valid()
      modifies this, entityPool
      ensures Valid()
      ensures (id as nat, entityPool.Model()) == PoolModel.Allocate(old(entityPool.Model()))
      ensures entityList == old(entityList) + [id] && systems == old(systems)
      ensures old(Unique()) && PoolModel.Available(old(entityPool.Model())) ==>
        Unique() && id != INVALID_ENTITY_ID && id !in old(entityList)
    {
      ghost var live := Ids(entityList);
      var raw := entityPool.Allocate();
      id := raw;
      entityList := entityList + [id];
      if old(Unique()) && PoolModel.Available(old(entityPool.Model())) {
        PoolModel.AllocateKeepsAccounts(old(entityPool.Model()), live);
        assert Ids(entityList) == live + {id as nat};
      }
    }

    /** The erase-remove idiom on the entity list, in place: ids other than id are moved forward
        in order and the tail is cut off. */
    method EraseFromEntityList(id: EntityId)
      modifies this`entityList
      ensures entityList == Erased(old(entityList), id)
    {
      var list := entityList;
      ghost var original := entityList;
      var i, j := 0, 0;
      while i < |list|
        invariant 0 <= j <= i <= |list| == |original|
        invariant list[..j] == Erased(original[..i], id)
        invariant forall k :: i <= k < |list| ==> list[k] == original[k]
      {
        ErasedStep(original, id, i);
        var x := list[i];
        if x != id {
          ghost var kept := list[..j];
          list := list[j := x];
          assert list[..j + 1] == kept + [x];
          j := j + 1;
        }
        i := i + 1;
      }
      assert original[..i] == original;
      entityList := list[..j];
    }

    /** remove_entity(id): id erased from the list, remove_component(id) on every store in order,
        then id freed, so that the next make_entity returns id. A store that lacks id throws out of
        the loop (RemoveFromAll says where): the list is already edited and id is not freed. */
    method RemoveEntity(id: EntityId) returns (status: Status)
      requires Valid()
      modifies this, entityPool
      ensures Valid()
      ensures entityList == Erased(old(entityList), id)
      ensures (systems, status.Done?) == RemoveFromAll(old(systems), id)
      ensures status.Thrown? ==> status.error == OutOfRange
      ensures entityPool.Model() == if status.Done? then PoolModel.Free(old(entityPool.Model()), id) else old(entityPool.Model())
      ensures status.Done? ==> PoolModel.Allocate(entityPool.Model()) == (id as nat, old(entityPool.Model()))
      ensures old(Unique()) && id in old(entityList) ==> Unique()
    {
      ghost var live := Ids(entityList);
      EraseFromEntityList(id);
      if old(Unique()) && id in old(entityList) {
        ErasedUnique(old(entityList), id);
        PoolModel.AccountsShrink(entityPool.Model(), live, live - {id as nat});
      }
      ghost var before := systems;
      status := RemoveFromSystems(id);
      RemoveFromAllIs(before, systems, id);
      if status.Done? {
        entityPool.Free(id);
        PoolModel.FreeThenAllocate(old(entityPool.Model()), id);
        if old(Unique()) && id in old(entityList) {
          PoolModel.FreeKeepsAccounts(old(entityPool.Model()), live, id);
        }
      }
    }

    /** The for_each_in_tuple loop of remove_entity: remove_component(id) on each store in order,
        stopping at the first store that throws. */
    method RemoveFromSystems(id: EntityId) returns (status: Status)
      requires Valid()
      modifies this`systems
      ensures Valid()
      ensures |systems| == |old(systems)|
      ensures status.Done? <==> FirstLacking(old(systems), id) == |systems|
      ensures forall j :: 0 <= j < |systems| ==>
        systems[j] == (if j < FirstLacking(old(systems), id) then SystemModel.RemoveComponent(old(systems)[j], id).value else old(systems)[j])
      ensures status.Thrown? ==> status.error == OutOfRange
    {
      ghost var before := systems;
      var i := 0;
      while i < |systems|
        invariant i <= |systems| == |before|
        invariant Valid()
        invariant forall j :: 0 <= j < i ==> id in before[j].entityMap
        invariant forall j :: 0 <= j < i ==> systems[j] == SystemModel.RemoveComponent(before[j], id).value
        invariant forall j :: i <= j < |systems| ==> systems[j] == before[j]
      {
        match SystemModel.RemoveComponent(systems[i], id)
        case Err(f) =>
          FirstLackingIs(before, id, i);
          return Thrown(f);
        case Ok(t) =>
          SystemModel.RemoveFacts(systems[i], id);
          systems := systems[i := t];
          i := i + 1;
      }
      FirstLackingIs(before, id, i);
      status := Done;
    }

    /** clear(): every store cleared in order, the entity pool reset and the list emptied; the next
        make_entity returns 0. */
    method Clear()
      requires Valid()
      modifies this, entityPool
      ensures Valid() && Unique()
      ensures |systems| == |old(systems)|
      ensures forall j :: 0 <= j < |systems| ==> systems[j] == SystemModel.Clear(old(systems)[j]) == SystemModel.Empty(systems[j].defaults)
      ensures entityPool.Model() == PoolModel.Init(0, INVALID_ENTITY_ID) && entityList == []
      ensures PoolModel.Allocate(entityPool.Model()).0 == 0
    {
      var i := 0;
      while i < |systems|
        invariant i <= |systems| == |old(systems)|
        invariant Valid()
        invariant forall j :: 0 <= j < i ==> systems[j] == SystemModel.Clear(old(systems)[j]) == SystemModel.Empty(systems[j].defaults)
        invariant forall j :: i <= j < |systems| ==> systems[j] == old(systems)[j]
      {
        SystemModel.ClearIsEmpty(systems[i]);
        systems := systems[i := SystemModel.Clear(systems[i])];
        i := i + 1;
      }
      entityPool.Clear();
      entityList := [];
      PoolModel.ClearThenAllocate(old(entityPool.Model()));
    }

    /** add_component<I>(id, initializer): store I only. */
    method AddComponent(i: nat, id: EntityId, initializer: seq<V>)
      requires Valid() && i < |systems| && |initializer| == |systems[i].columns|
      requires id in systems[i].entityMap || PoolModel.Available(systems[i].pool)
      modifies this
      ensures Valid()
      ensures systems == old(systems)[i := SystemModel.AddComponent(old(systems[i]), id, initializer)]
      ensures entityList == old(entityList) && entityPool.Model() == old(entityPool.Model())
    {
      SystemModel.AddKeepsValid(systems[i], id, initializer);
      systems := systems[i := SystemModel.AddComponent(systems[i], id, initializer)];
    }

    /** emplace<I>(id, args...): the initializer is built from the arguments. */
    method Emplace(i: nat, id: EntityId, args: seq<V>)
      requires Valid() && i < |systems| && |args| == |systems[i].columns|
      requires id in systems[i].entityMap || PoolModel.Available(systems[i].pool)
      modifies this
      ensures Valid()
      ensures systems == old(systems)[i := SystemModel.AddComponent(old(systems[i]), id, args)]
      ensures entityList == old(entityList) && entityPool.Model() == old(entityPool.Model())
    {
      AddComponent(i, id, args);
    }

    /** remove_component<I>(id): store I only; out_of_range when id has no component there. */
    method RemoveComponent(i: nat, id: EntityId) returns (status: Status)
      requires Valid() && i < |systems|
      modifies this
      ensures Valid()
      ensures status.Done? <==> id in old(systems[i].entityMap)
      ensures status.Thrown? ==> status.error == OutOfRange && systems == old(systems)
      ensures status.Done? ==> systems == old(systems)[i := SystemModel.RemoveComponent(old(systems[i]), id).value]
      ensures entityList == old(entityList) && entityPool.Model() == old(entityPool.Model())
    {
      match SystemModel.RemoveComponent(systems[i], id)
      case Err(f) =>
        status := Thrown(f);
      case Ok(t) =>
        SystemModel.RemoveFacts(systems[i], id);
        systems := systems[i := t];
        status := Done;
    }

    /** Assignment to member c of the view the non-const get_component<I>(id) returns: only store
        I changes, and only at id's slot. */
    method WriteMember(i: nat, id: EntityId, c: nat, v: V) returns (status: Status)
      requires Valid() && i < |systems| && c < |systems[i].columns|
      modifies this
      ensures Valid()
      ensures status.Thrown? <==> id !in old(systems[i].entityMap)
      ensures status.Thrown? ==> status.error == OutOfRange && systems == old(systems)
      ensures status.Done? ==> systems == old(systems)[i := SystemModel.WriteMember(old(systems[i]), id, c, v).value]
      ensures entityList == old(entityList) && entityPool.Model() == old(entityPool.Model())
    {
      match SystemModel.WriteMember(systems[i], id, c, v)
      case Err(f) =>
        status := Thrown(f);
      case Ok(t) =>
        SystemModel.WriteMemberFacts(systems[i], id, c, v);
        systems := systems[i := t];
        status := Done;
    }

    /** get_component<I>(id): store I's lookup, changing nothing. */
    method GetComponent(i: nat, id: EntityId) returns (r: Result<seq<V>>)
      requires Valid() && i < |systems|
      ensures r.Err? <==> id !in systems[i].entityMap
      ensures r.Ok? ==> r.value == SystemModel.RowAt(systems[i].columns, systems[i].entityMap[id])
    {
      r := SystemModel.GetComponent(systems[i], id);
    }

    /** get_members<I, Member>(): column Member of store I. */
    method GetMembers(i: nat, c: nat) returns (members: seq<V>)
      requires Valid() && i < |systems| && c < |systems[i].columns|
      ensures members == systems[i].columns[c]
      ensures forall id :: id in systems[i].entityMap ==>
        systems[i].entityMap[id] < |members| &&
        members[systems[i].entityMap[id]] == SystemModel.GetComponent(systems[i], id).value[c]
    {
      members := systems[i].columns[c];
    }
  }

  /** What the remove_entity loop leaves behind, position by position, is the fan-out's result. */
  lemma RemoveFromAllIs<V>(before: seq<SystemModel.SystemState<V>>, after: seq<SystemModel.SystemState<V>>, id: EntityId)
    requires |after| == |before|
    requires forall j :: 0 <= j < |after| ==>
      after[j] == (if j < FirstLacking(before, id) then SystemModel.RemoveComponent(before[j], id).value else before[j])
    ensures after == RemoveFromAll(before, id).0
    ensures RemoveFromAll(before, id).1 <==> FirstLacking(before, id) == |before|
  {
    RemoveFromAllFacts(before, id);
  }
}
