/** The scenarios of the priority integration tests, as worlds: an entity X that two
    tweens A and B of one type both target, each tween the child of its own animation
    parent. A has priority 10; B has 9 of its own, 9 through its parent, or none. */
module PriorityScenarios {
  import opened Ecs
  import opened TweenRequests
  import opened TweenPriority
  import opened TweenTargetRemover

  const X: Entity := 0
  const ParentA: Entity := 1
  const A: Entity := 2
  const ParentB: Entity := 3
  const B: Entity := 4
  const Type: TweenType := 0

  /** An animation parent: a time runner whose only child is `child`. */
  function Parent(priority: Option<u32>, child: Entity): EntityData {
    EntityData(None, None, Some([child]), priority, true, false, false, false)
  }

  function TweenOn(parent: Entity, priority: Option<u32>): EntityData {
    EntityData(Some(ComponentTween(Type, TargetEntity(X))), Some(parent), None, priority, false, true, true, false)
  }

  /** The world once both tweens exist. */
  function Scenario(ownB: Option<u32>, parentB: Option<u32>): (w: World)
    ensures w.Valid()
  {
    World([X, ParentA, A, ParentB, B],
          map[X := EntityData(None, None, None, None, false, false, false, false),
              ParentA := Parent(None, A),
              A := TweenOn(ParentA, Some(10)),
              ParentB := Parent(parentB, B),
              B := TweenOn(ParentB, ownB)])
  }

  /** The world when A's spawn is observed: B is not spawned yet. */
  function AloneWorld(): (w: World)
    ensures w.Valid()
  {
    World([X, ParentA, A],
          map[X := EntityData(None, None, None, None, false, false, false, false),
              ParentA := Parent(None, A),
              A := TweenOn(ParentA, Some(10))])
  }

  /** A, spawned first, finds no other tween of its type and writes nothing. */
  lemma FirstSpawnAlone()
    ensures OnSpawnRequests(AloneWorld(), Type, A) == []
  {
    var w := AloneWorld();
    var nbA := Newborn(A, w.data[A].tween.value, ParentA, 10);
    assert OnSpawnRequests(w, Type, A) == PriorityRequests(w, Type, nbA, w.order);
    assert w.order[..2] == [X, ParentA] && w.order[..2][..1] == [X] && [X][..0] == [];
    assert PriorityRequests(w, Type, nbA, [X]) == [];
    assert PriorityRequests(w, Type, nbA, [X, ParentA]) == [];
  }

  /** The requests written for each of the two tweens, in query order. */
  lemma ScenarioRequests(ownB: Option<u32>, parentB: Option<u32>)
    ensures var w := Scenario(ownB, parentB);
      var levelB := if ownB.Some? then ownB else parentB;
      && OnSpawnRequests(w, Type, A)
           == (if levelB.None? then [] else [RemoveEntity(RemoveTweenTargets(if levelB.value <= 10 then B else A, [X]))])
      && OnSpawnRequests(w, Type, B)
           == (if levelB.None? then [] else [RemoveEntity(RemoveTweenTargets(if 10 <= levelB.value then A else B, [X]))])
  {
    var w := Scenario(ownB, parentB);
    var levelB := if ownB.Some? then ownB else parentB;
    var nbA := Newborn(A, w.data[A].tween.value, ParentA, 10);
    assert EffectivePriority(w, w.data[B].priority, ParentB) == levelB;
    assert OnSpawnRequests(w, Type, A) == PriorityRequests(w, Type, nbA, w.order);
    QueryOrderRequests(ownB, parentB, nbA);
    if levelB.Some? {
      var nbB := Newborn(B, w.data[B].tween.value, ParentB, levelB.value);
      assert OnSpawnRequests(w, Type, B) == PriorityRequests(w, Type, nbB, w.order);
      QueryOrderRequests(ownB, parentB, nbB);
    }
  }

  /** The loop over the scenario's five entities compares the newborn with A and with B only. */
  lemma QueryOrderRequests(ownB: Option<u32>, parentB: Option<u32>, newborn: Newborn)
    ensures var w := Scenario(ownB, parentB);
      PriorityRequests(w, Type, newborn, w.order)
        == CompareWithOther(w, Type, newborn, A) + CompareWithOther(w, Type, newborn, B)
  {
    var w := Scenario(ownB, parentB);
    var es := w.order;
    assert es[..4] == [X, ParentA, A, ParentB] && es[..4][..3] == [X, ParentA, A];
    assert es[..4][..3][..2] == [X, ParentA] && es[..4][..3][..2][..1] == [X] && [X][..0] == [];
    assert PriorityRequests(w, Type, newborn, [X]) == [];
    assert PriorityRequests(w, Type, newborn, [X, ParentA]) == [];
    assert PriorityRequests(w, Type, newborn, [X, ParentA, A]) == CompareWithOther(w, Type, newborn, A);
    assert PriorityRequests(w, Type, newborn, es[..4]) == CompareWithOther(w, Type, newborn, A);
  }

  /** Priorities 10 and 9, the 9 either B's own or its parent's: whichever tween is the
      newborn, the single request names B and lists X. */
  lemma TenBeatsNine(throughParent: bool)
    ensures var w := if throughParent then Scenario(None, Some(9)) else Scenario(Some(9), None);
      && OnSpawnRequests(w, Type, A) == [RemoveEntity(RemoveTweenTargets(B, [X]))]
      && OnSpawnRequests(w, Type, B) == [RemoveEntity(RemoveTweenTargets(B, [X]))]
  {
    if throughParent {
      ScenarioRequests(None, Some(9));
    } else {
      ScenarioRequests(Some(9), None);
    }
  }

  /** A tween with priority and one without: nothing is written for either. */
  lemma OneWithoutPriorityLeavesBoth()
    ensures OnSpawnRequests(Scenario(None, None), Type, A) == []
    ensures OnSpawnRequests(Scenario(None, None), Type, B) == []
  {
    ScenarioRequests(None, None);
  }

  /** The request, once read, despawns B (its single target is removed) and queues nothing for A. */
  lemma NineIsDestroyed(throughParent: bool)
    ensures var w := if throughParent then Scenario(None, Some(9)) else Scenario(Some(9), None);
      ApplyRemoveRequests(w, Type, [RemoveTweenTargets(B, [X])]).commands == [Despawn(B)]
  {
    var w := if throughParent then Scenario(None, Some(9)) else Scenario(Some(9), None);
    OneRemoveRequest(w, Type, RemoveTweenTargets(B, [X]));
  }
}
