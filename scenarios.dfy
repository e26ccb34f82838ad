/**
 Client code in the manner of the demo driver, with `int` as the payload: what
 a caller of the pool can conclude from the method contracts and the lemmas of
 `PoolSpec`.
 */
module Scenarios {
  import opened PoolSpec
  import opened PersistentReferences

  /** Three entries, the middle one destroyed with swap-and-pop: the other two
      keep their payloads and the destroyed id no longer passes the asserts. */
  method DestroyMiddleEntry()
  {
    var scene := new PersistentReferenceManager<int>(0);
    var go := scene.Create();
    scene.SetModelById(go.id, 10);
    var go2 := scene.Create();
    scene.SetModelById(go2.id, 5);
    var go3 := scene.Create();
    scene.SetModelById(go3.id, 6);
    assert go.id == 0 && go2.id == 1 && go3.id == 2;

    ghost var before := scene.State();
    assert Valid(before) && before.slots[go2.id] == 2 && |before.models| == 3;
    assert Resolve(before, go.id) == 10 && Resolve(before, go3.id) == 6;
    scene.DestroySwapBack(go2);
    SwapBackStability(before, go2.id);
    assert !Live(scene.State(), go2.id);
    assert go.Get(scene) == 10;
    assert go3.Get(scene) == 6;
  }

  /** A copy of a handle carries the same id, so a write through the copy is
      read back through the original. */
  method CopiedHandleSharesPayload()
  {
    var scene := new PersistentReferenceManager<int>(0);
    var go4 := scene.Create();
    scene.SetModelById(go4.id, 32);
    var go4copy := go4;
    scene.SetModelById(go4copy.id, 64);
    assert go4.Get(scene) == 64;
  }

  /** Destroying the newest entry with swap-and-pop leaves its id live; the
      next `Create` hands out the same slot, so the dead handle reads and
      writes the new entry. */
  method DestroyNewestEntry()
  {
    var scene := new PersistentReferenceManager<int>(0);
    var go := scene.Create();
    var go4 := scene.Create();
    scene.SetModelById(go4.id, 32);

    scene.DestroySwapBack(go4);
    assert Live(scene.State(), go4.id) && !scene.Valid();

    var go5 := scene.Create();
    assert go5.id != go4.id;
    assert scene.slots[go5.id] == scene.slots[go4.id];
    scene.SetModelById(go5.id, 7);
    assert go4.Get(scene) == 7;
  }
}
