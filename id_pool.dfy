/** utility::id_pool (include/utility/id_pool.hpp): an identifier allocator with a counter of the
    next never-issued id and a LIFO free list of recycled ids.

    PoolModel gives the pool's state as a value together with what allocate, free and clear do to
    it, and proves the allocator's promises about that value; IdPools.IdPool is the object whose
    methods update the two fields in place and are tied to those functions. */
module PoolModel {

  /** The state of an id_pool<T, Min, Max>: min_id and max_id, the counter _current_id and the
      deque _free_ids (its back is the last element of the sequence). */
  datatype Pool = Pool(minId: nat, maxId: nat, current: nat, freeIds: seq<nat>)

  /** What every pool keeps: the counter never leaves [min_id, max_id], and every queued id is a
      value of id_type, whose largest value is max_id for the default template arguments. */
  predicate Valid(p: Pool) {
    && p.minId <= p.current <= p.maxId
    && forall i :: 0 <= i < |p.freeIds| ==> p.freeIds[i] <= p.maxId
  }

  /** A default-constructed pool: nothing queued, the counter at min_id. */
  function Init(minId: nat, maxId: nat): (p: Pool)
    requires minId <= maxId
    ensures Valid(p)
  {
    Pool(minId, maxId, minId, [])
  }

  /** allocate() can hand out a real id rather than the max_id sentinel. */
  predicate Available(p: Pool) {
    p.freeIds != [] || p.current < p.maxId
  }

  /** allocate(): the most recently freed id if any is queued; otherwise max_id, unchanged, when the
      counter has reached max_id; otherwise the counter, which then moves up by one. */
  function Allocate(p: Pool): (r: (nat, Pool))
    ensures r.1.minId == p.minId && r.1.maxId == p.maxId
    ensures Valid(p) ==> Valid(r.1) && r.0 <= p.maxId
  {
    if p.freeIds != [] then
      (p.freeIds[|p.freeIds| - 1], p.(freeIds := p.freeIds[..|p.freeIds| - 1]))
    else if p.current == p.maxId then
      (p.maxId, p)
    else
      (p.current, p.(current := p.current + 1))
  }

  /** free(id), both overloads: push id on the back of the free list, with no check at all. */
  function Free(p: Pool, id: nat): (q: Pool)
    ensures q.minId == p.minId && q.maxId == p.maxId && q.current == p.current
    ensures |q.freeIds| == |p.freeIds| + 1 && q.freeIds[..|p.freeIds|] == p.freeIds && q.freeIds[|p.freeIds|] == id
    ensures Valid(p) && id <= p.maxId ==> Valid(q)
  {
    p.(freeIds := p.freeIds + [id])
  }

  /** clear(): empty the free list and put the counter back to min_id. */
  function Clear(p: Pool): (q: Pool)
    ensures p.minId <= p.maxId ==> q == Init(p.minId, p.maxId)
  {
    p.(freeIds := [], current := p.minId)
  }

  /** The allocator's uniqueness bookkeeping for a set of ids the caller holds (live): the free list
      has no repeats, and live ids, queued ids and the never-issued range [current, max_id) are
      pairwise disjoint. */
  ghost predicate Accounts(p: Pool, live: set<nat>) {
    && Valid(p)
    && (forall i, j :: 0 <= i < j < |p.freeIds| ==> p.freeIds[i] != p.freeIds[j])
    && (forall i :: 0 <= i < |p.freeIds| ==> p.minId <= p.freeIds[i] < p.current && p.freeIds[i] !in live)
    && (forall x :: x in live ==> p.minId <= x < p.current)
  }

  /** LIFO reuse: allocating right after free(id) returns id and restores the pool exactly,
      whatever else is queued and wherever the counter stands. */
  lemma FreeThenAllocate(p: Pool, id: nat)
    ensures Allocate(Free(p, id)) == (id, p)
  {
    assert (p.freeIds + [id])[..|p.freeIds|] == p.freeIds;
  }

  /** With nothing queued and the counter below max_id, allocate issues the counter and moves it
      up by exactly one. */
  lemma AllocateFromCounter(p: Pool)
    requires p.freeIds == [] && p.current < p.maxId
    ensures Allocate(p).0 == p.current
    ensures Allocate(p).1 == p.(current := p.current + 1)
  {
  }

  /** max_id is only ever the exhaustion sentinel: while the bookkeeping holds, allocate returns
      max_id exactly when nothing is queued and the counter has reached max_id, and then it changes
      nothing; no caller ever holds max_id. */
  lemma SentinelIffExhausted(p: Pool, live: set<nat>)
    requires Accounts(p, live)
    ensures Allocate(p).0 == p.maxId <==> !Available(p)
    ensures !Available(p) ==> Allocate(p).1 == p
    ensures p.maxId !in live
  {
    if p.freeIds != [] {
      var n := |p.freeIds| - 1;
      assert p.freeIds[n] < p.current;
    }
  }

  /** Uniqueness, allocation step: an available pool issues an id no caller holds and the
      bookkeeping goes on holding with that id added to the live set. */
  lemma AllocateKeepsAccounts(p: Pool, live: set<nat>)
    requires Accounts(p, live) && Available(p)
    ensures Allocate(p).0 != p.maxId && Allocate(p).0 !in live
    ensures Accounts(Allocate(p).1, live + {Allocate(p).0})
  {
    if p.freeIds != [] {
      var n := |p.freeIds| - 1;
      var q := Allocate(p).1;
      assert q.freeIds == p.freeIds[..n];
      assert p.freeIds[n] < p.current;
      forall i | 0 <= i < |q.freeIds|
        ensures q.freeIds[i] != p.freeIds[n]
      {
        assert q.freeIds[i] == p.freeIds[i];
      }
    }
  }

  /** Uniqueness, release step: freeing an id the caller holds keeps the bookkeeping with that id
      no longer live. */
  lemma FreeKeepsAccounts(p: Pool, live: set<nat>, id: nat)
    requires Accounts(p, live) && id in live
    ensures Accounts(Free(p, id), live - {id})
  {
    var q := Free(p, id);
    forall i | 0 <= i < |p.freeIds|
      ensures q.freeIds[i] == p.freeIds[i] && q.freeIds[i] != id
    {
    }
  }

  /** Forgetting ids (an id leaked by the caller) never breaks the bookkeeping. */
  lemma AccountsShrink(p: Pool, live: set<nat>, fewer: set<nat>)
    requires Accounts(p, live) && fewer <= live
    ensures Accounts(p, fewer)
  {
  }

  /** free performs no validation: an id freed twice is issued twice in a row. */
  lemma DoubleFreeIssuesTwice(p: Pool, id: nat)
    ensures Allocate(Free(Free(p, id), id)).0 == id
    ensures Allocate(Allocate(Free(Free(p, id), id)).1).0 == id
  {
    FreeThenAllocate(Free(p, id), id);
    FreeThenAllocate(p, id);
  }

  /** After clear, the next allocation returns min_id. */
  lemma ClearThenAllocate(p: Pool)
    requires p.minId < p.maxId
    ensures Allocate(Clear(p)).0 == p.minId
    ensures Allocate(Clear(p)).1 == Init(p.minId, p.maxId).(current := p.minId + 1)
  {
  }

  /** A call on the pool, for reasoning about sequences of calls. */
  datatype Op = AllocateOp | FreeOp(id: nat)

  /** The pool after ops, and the ids that allocate took from the counter, in order. */
  function Run(p: Pool, ops: seq<Op>): (r: (Pool, seq<nat>))
    ensures r.0.minId == p.minId && r.0.maxId == p.maxId
    ensures |r.1| <= |ops|
    decreases |ops|
  {
    if ops == [] then (p, [])
    else
      match ops[0]
      case FreeOp(id) => Run(Free(p, id), ops[1..])
      case AllocateOp =>
        var fromCounter := p.freeIds == [] && p.current != p.maxId;
        var rest := Run(Allocate(p).1, ops[1..]);
        (rest.0, if fromCounter then [Allocate(p).0] + rest.1 else rest.1)
  }

  /** Fresh ids lie in [min_id, max_id) and strictly increase over any sequence of allocate and
      free calls: the counter never moves down. */
  lemma {:induction false} FreshIdsIncrease(p: Pool, ops: seq<Op>)
    requires p.minId <= p.current <= p.maxId
    ensures Run(p, ops).0.maxId == p.maxId
    ensures p.current <= Run(p, ops).0.current <= p.maxId
    ensures forall i :: 0 <= i < |Run(p, ops).1| ==> p.current <= Run(p, ops).1[i] < Run(p, ops).0.current
    ensures forall i, j :: 0 <= i < j < |Run(p, ops).1| ==> Run(p, ops).1[i] < Run(p, ops).1[j]
    decreases |ops|
  {
    if ops != [] {
      match ops[0]
      case FreeOp(id) =>
        FreshIdsIncrease(Free(p, id), ops[1..]);
      case AllocateOp =>
        FreshIdsIncrease(Allocate(p).1, ops[1..]);
    }
  }
}

/** The id_pool object itself. */
module IdPools {
  import PoolModel

  class IdPool {
    const minId: nat
    const maxId: nat
    var current: nat
    var freeIds: seq<nat>

    /** The pool's state as a value. */
    function Model(): PoolModel.Pool
      reads this
    {
      PoolModel.Pool(minId, maxId, current, freeIds)
    }

    constructor (minId: nat, maxId: nat)
      requires minId <= maxId
      ensures Model() == PoolModel.Init(minId, maxId)
    {
      this.minId := minId;
      this.maxId := maxId;
      current := minId;
      freeIds := [];
    }

    method Allocate() returns (id: nat)
      modifies this
      ensures (id, Model()) == PoolModel.Allocate(old(Model()))
    {
      id := maxId;
      if freeIds != [] {
        id := freeIds[|freeIds| - 1];
        freeIds := freeIds[..|freeIds| - 1];
      } else if current == maxId {
        id := maxId;
      } else {
        id := current;
        current := current + 1;
      }
    }

    method Free(id: nat)
      modifies this
      ensures Model() == PoolModel.Free(old(Model()), id)
    {
      freeIds := freeIds + [id];
    }

    method Clear()
      modifies this
      ensures Model() == PoolModel.Clear(old(Model()))
    {
      freeIds := [];
      current := minId;
    }
  }
}
