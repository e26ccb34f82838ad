/**
 Sequences of `Create` and `Destroy` calls on one pool, and what holds across
 all of them: the invariant, ids that are never issued twice, destroyed ids
 that never come back, and live ids that keep their payload. `Destroy` is
 either the ordered removal or the corrected swap-and-pop removal.
 */
module PoolRuns {
  import opened PoolSpec

  datatype Op = CreateOp | DestroyOp(id: nat)

  /** Which `Destroy` the pool is built with. */
  datatype Removal = Ordered | FixedSwapAndPop

  /** A `Destroy` call must name an id in the map whose slot is in range. */
  predicate Allowed<T>(p: Pool<T>, op: Op)
  {
    op.DestroyOp? ==> Destroyable(p, op.id)
  }

  ghost function Step<T>(p: Pool<T>, dflt: T, how: Removal, op: Op): Pool<T>
    requires Allowed(p, op)
  {
    match op
    case CreateOp => Created(p, dflt)
    case DestroyOp(id) =>
      if how == Ordered then OrderedDestroyed(p, id) else FixedSwapBackDestroyed(p, id)
  }

  /** Every call in `ops` meets its precondition in the state it is made in. */
  ghost predicate Runnable<T>(p: Pool<T>, dflt: T, how: Removal, ops: seq<Op>)
    decreases |ops|
  {
    ops == [] || (Allowed(p, ops[0]) && Runnable(Step(p, dflt, how, ops[0]), dflt, how, ops[1..]))
  }

  /** The state after all of `ops`. */
  ghost function Run<T>(p: Pool<T>, dflt: T, how: Removal, ops: seq<Op>): Pool<T>
    requires Runnable(p, dflt, how, ops)
    decreases |ops|
  {
    if ops == [] then p else Run(Step(p, dflt, how, ops[0]), dflt, how, ops[1..])
  }

  /** The ids the `Create` calls in `ops` return, in order. */
  ghost function Issued<T>(p: Pool<T>, dflt: T, how: Removal, ops: seq<Op>): seq<nat>
    requires Runnable(p, dflt, how, ops)
    decreases |ops|
  {
    if ops == [] then []
    else
      var rest := Issued(Step(p, dflt, how, ops[0]), dflt, how, ops[1..]);
      if ops[0].CreateOp? then [p.last] + rest else rest
  }

  /** Every single step keeps the invariant. */
  lemma StepPreservesValid<T>(p: Pool<T>, dflt: T, how: Removal, op: Op)
    requires Valid(p) && Allowed(p, op)
    ensures Valid(Step(p, dflt, how, op))
    ensures p.last <= Step(p, dflt, how, op).last
  {
    match op
    case CreateOp => CreatePreservesValid(p, dflt);
    case DestroyOp(id) =>
      if how == Ordered {
        OrderedPreservesValid(p, id);
      } else {
        FixedSwapBackPreservesValid(p, id);
      }
  }

  /** After any sequence of calls the invariant holds, so storage has exactly
      as many entries as there are live ids. */
  lemma {:induction false} RunPreservesValid<T>(p: Pool<T>, dflt: T, how: Removal, ops: seq<Op>)
    requires Valid(p) && Runnable(p, dflt, how, ops)
    ensures Valid(Run(p, dflt, how, ops))
    ensures |Run(p, dflt, how, ops).models| == |Run(p, dflt, how, ops).slots|
    decreases |ops|
  {
    if ops != [] {
      StepPreservesValid(p, dflt, how, ops[0]);
      RunPreservesValid(Step(p, dflt, how, ops[0]), dflt, how, ops[1..]);
    }
  }

  /** Ids are issued strictly increasing, from the counter onwards, and all lie
      below the final counter; so no id is issued twice and none of them was
      already in use. */
  lemma {:induction false} IssuedIdsAreFresh<T>(p: Pool<T>, dflt: T, how: Removal, ops: seq<Op>)
    requires Runnable(p, dflt, how, ops)
    ensures forall i, j :: 0 <= i < j < |Issued(p, dflt, how, ops)| ==>
      Issued(p, dflt, how, ops)[i] < Issued(p, dflt, how, ops)[j]
    ensures forall i :: 0 <= i < |Issued(p, dflt, how, ops)| ==>
      p.last <= Issued(p, dflt, how, ops)[i] < Run(p, dflt, how, ops).last
    ensures Valid(p) ==> forall i :: 0 <= i < |Issued(p, dflt, how, ops)| ==>
      Issued(p, dflt, how, ops)[i] !in p.slots
    ensures p.last <= Run(p, dflt, how, ops).last
    decreases |ops|
  {
    if ops != [] {
      var q := Step(p, dflt, how, ops[0]);
      assert Run(p, dflt, how, ops) == Run(q, dflt, how, ops[1..]);
      var ids, rest := Issued(p, dflt, how, ops), Issued(q, dflt, how, ops[1..]);
      IssuedIdsAreFresh(q, dflt, how, ops[1..]);
      assert p.last <= q.last;
      if ops[0].CreateOp? {
        assert ids == [p.last] + rest;
        forall i | 0 < i < |ids| ensures p.last < ids[i]
        {
          assert ids[i] == rest[i - 1];
        }
      }
    }
  }

  /** A step only removes keys, or adds the counter; a `Destroy` removes its
      id. */
  lemma StepKeys<T>(p: Pool<T>, dflt: T, how: Removal, op: Op)
    requires Valid(p) && Allowed(p, op)
    ensures Step(p, dflt, how, op).slots.Keys <= p.slots.Keys + {p.last}
    ensures op.DestroyOp? ==> op.id !in Step(p, dflt, how, op).slots
  {
    match op
    case CreateOp =>
    case DestroyOp(id) =>
      if how == Ordered {
        OrderedStability(p, id);
      } else {
        FixedSwapBackStability(p, id);
        if p.slots[id] != |p.models| {
          LastIdIsUnique(p);
        }
      }
  }

  /** An id that was issued and is no longer in the map stays out of it,
      whatever calls follow. */
  lemma {:induction false} RetiredStaysRetired<T>(p: Pool<T>, dflt: T, how: Removal, ops: seq<Op>, id: nat)
    requires Valid(p) && Runnable(p, dflt, how, ops)
    requires id < p.last && id !in p.slots
    ensures id !in Run(p, dflt, how, ops).slots
    decreases |ops|
  {
    if ops != [] {
      var q := Step(p, dflt, how, ops[0]);
      StepKeys(p, dflt, how, ops[0]);
      StepPreservesValid(p, dflt, how, ops[0]);
      RetiredStaysRetired(q, dflt, how, ops[1..], id);
    }
  }

  /** After `Destroy` of a handle no later state lets its id pass the lookup
      asserts: the dangling handle is rejected. */
  lemma DestroyedIdIsNeverLiveAgain<T>(p: Pool<T>, dflt: T, how: Removal, id: nat, ops: seq<Op>)
    requires Valid(p) && Runnable(p, dflt, how, [DestroyOp(id)] + ops)
    ensures !Live(Run(p, dflt, how, [DestroyOp(id)] + ops), id)
  {
    var all := [DestroyOp(id)] + ops;
    assert all[1..] == ops;
    var q := Step(p, dflt, how, DestroyOp(id));
    StepKeys(p, dflt, how, DestroyOp(id));
    StepPreservesValid(p, dflt, how, DestroyOp(id));
    RetiredStaysRetired(q, dflt, how, ops, id);
  }

  /** An id that no call in `ops` destroys keeps resolving to the payload it
      had, however the others are created and destroyed around it. */
  lemma {:induction false} LiveIdKeepsPayload<T>(p: Pool<T>, dflt: T, how: Removal, ops: seq<Op>, id: nat)
    requires Valid(p) && Runnable(p, dflt, how, ops)
    requires Live(p, id) && DestroyOp(id) !in ops
    ensures Resolvable(Run(p, dflt, how, ops), id)
    ensures Resolve(Run(p, dflt, how, ops), id) == Resolve(p, id)
    decreases |ops|
  {
    if ops != [] {
      var q := Step(p, dflt, how, ops[0]);
      assert ops[0] != DestroyOp(id);
      assert forall op :: op in ops[1..] ==> op in ops;
      match ops[0] {
        case CreateOp =>
          CreateResolves(p, dflt);
        case DestroyOp(other) =>
          if how == Ordered {
            OrderedStability(p, other);
          } else {
            FixedSwapBackStability(p, other);
          }
      }
      StepPreservesValid(p, dflt, how, ops[0]);
      LiveIdKeepsPayload(q, dflt, how, ops[1..], id);
    }
  }
}
