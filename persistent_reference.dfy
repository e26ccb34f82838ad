/**
 The pool itself, `PersistentReferenceManager<T>`, and its handle
 `PersistentReference`. The manager owns a dense sequence of payloads, a map
 from handle id to 1-based slot, and the id counter, and updates them in place;
 each method is proved against the matching function of `PoolSpec`.
 */
module PersistentReferences {
  import opened PoolSpec

  /** A handle carries only its id; the pool it refers to is passed to `Get`
      explicitly. Copying a handle copies the id. */
  datatype PersistentReference = PersistentReference(id: nat) {

    /** Dereference the handle through its pool. */
    function Get<T>(manager: PersistentReferenceManager<T>): (v: T)
      reads manager
      requires Resolvable(manager.State(), id)
      ensures v == Resolve(manager.State(), id)
    {
      manager.GetPersistentReference(id)
    }
  }

  class PersistentReferenceManager<T> {
    /** The dense storage. */
    var models: seq<T>
    /** Handle id to 1-based position in `models`. */
    var slots: map<nat, nat>
    /** The id the next `Create` issues. */
    var last: nat
    /** The value `Create` appends (the payload's default constructor). */
    const dflt: T

    ghost function State(): Pool<T>
      reads this
    {
      Pool(models, slots, last)
    }

    ghost predicate Valid()
      reads this
    {
      PoolSpec.Valid(State())
    }

    constructor (dflt: T)
      ensures State() == Pool([], map[], 0) && this.dflt == dflt
      ensures Valid()
    {
      models := [];
      slots := map[];
      last := 0;
      this.dflt := dflt;
    }

    /** Lookup guarded by the two liveness asserts; the vector index must be
        in range. */
    function GetModelById(id: nat): (v: T)
      reads this
      requires Resolvable(State(), id)
      ensures v == Resolve(State(), id)
      ensures Valid() ==> forall k :: k in slots && k != id ==> slots[k] != slots[id]
    {
      models[slots[id] - 1]
    }

    function GetPersistentReference(id: nat): (v: T)
      reads this
      requires Resolvable(State(), id)
      ensures v == Resolve(State(), id)
    {
      GetModelById(id)
    }

    /** Writing through the reference that `Get` returns: the payload in the
        id's slot becomes `v`. */
    method SetModelById(id: nat, v: T)
      requires Resolvable(State(), id)
      modifies this
      ensures State() == Written(old(State()), id, v)
      ensures old(Valid()) ==> Valid()
    {
      models := models[slots[id] - 1 := v];
    }

    /** Re-acquire a handle for a live id; the pool is left as it is. */
    function GetById(id: nat): (r: PersistentReference)
      reads this
      requires Live(State(), id)
      ensures r.id == id
      ensures Valid() ==> Resolvable(State(), r.id)
    {
      PersistentReference(id)
    }

    /** Append a default payload and issue the current counter as its id. */
    method Create() returns (r: PersistentReference)
      modifies this
      ensures State() == Created(old(State()), dflt)
      ensures r.id == old(last)
      ensures old(Valid()) ==> Valid() && r.id !in old(slots)
    {
      models := models + [dflt];
      var newIndex := |models|;
      slots := slots[last := newIndex];
      r := PersistentReference(last);
      last := last + 1;
      if old(Valid()) {
        CreatePreservesValid(old(State()), dflt);
      }
    }

    /** The scan of swap-and-pop `Destroy`: keys in ascending order, stopping
        at the first whose slot equals the storage length; 0 when none does. */
    method FindLastId() returns (lastId: nat)
      ensures KeysAt(slots, |models|) == {} ==> lastId == 0
      ensures KeysAt(slots, |models|) != {} ==>
        && lastId in slots && slots[lastId] == |models|
        && forall j :: j in slots && slots[j] == |models| ==> lastId <= j
      ensures lastId == LastId(State())
    {
      lastId := 0;
      var todo := slots.Keys;
      ghost var lo := 0;
      while todo != {}
        invariant forall k :: k in slots ==> (k in todo <==> k >= lo)
        invariant todo <= slots.Keys
        invariant forall k :: k in slots && k < lo ==> slots[k] != |models|
        decreases todo
      {
        MinExists(todo);
        var k :| k in todo && forall j :: j in todo ==> k <= j;
        if slots[k] == |models| {
          LastIdIsLeast(State(), k);
          lastId := k;
          return;
        }
        todo := todo - {k};
        lo := k + 1;
      }
      assert KeysAt(slots, |models|) == {};
    }

    /** Ordered `Destroy`: erase the slot, erase the key, then decrement every
        slot above the removed index. */
    method DestroyOrdered(go: PersistentReference)
      requires Destroyable(State(), go.id)
      modifies this
      ensures State() == OrderedDestroyed(old(State()), go.id)
      ensures old(Valid()) ==> Valid()
    {
      var mi := slots[go.id] - 1;
      models := models[..mi] + models[mi + 1..];
      slots := slots - {go.id};
      ghost var erased := slots;
      var todo := slots.Keys;
      while todo != {}
        invariant todo <= slots.Keys == erased.Keys
        invariant forall k :: k in slots && k !in todo ==> slots[k] == Shifted(erased[k], mi)
        invariant forall k :: k in todo ==> slots[k] == erased[k]
        modifies this`slots
        decreases todo
      {
        var k :| k in todo;
        if slots[k] > mi {
          slots := slots[k := slots[k] - 1];
        }
        todo := todo - {k};
      }
      assert slots == OrderedDestroyed(old(State()), go.id).slots;
      if old(Valid()) {
        OrderedPreservesValid(old(State()), go.id);
      }
    }

    /** Swap-and-pop `Destroy` as written: find the id of the last slot, swap
        the target with the back, pop, erase the key, repoint the found id. */
    method DestroySwapBack(go: PersistentReference)
      requires Destroyable(State(), go.id)
      modifies this
      ensures State() == SwapBackDestroyed(old(State()), go.id)
      ensures old(Valid()) && old(slots[go.id]) != old(|models|) ==> Valid()
      ensures old(Valid()) && old(slots[go.id]) == old(|models|) ==>
        !Valid() && Live(State(), go.id)
    {
      var mi := slots[go.id] - 1;
      var lastId := FindLastId();
      var n := |models|;
      var hole := models[mi];
      models := models[mi := models[n - 1]][n - 1 := hole];
      models := models[..n - 1];
      slots := slots - {go.id};
      slots := slots[lastId := mi + 1];
      if old(Valid()) {
        if old(slots[go.id]) != n {
          SwapBackPreservesValid(old(State()), go.id);
        } else {
          SwapBackLastSlotBreaksValid(old(State()), go.id);
        }
      }
    }
  }
}
