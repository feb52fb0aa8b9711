/** Despawning animation parents (time runners) that are done: those whose run ended
    completed, and those left with no child other than the tween being removed. */
module AnimationParentDestroyer {
  import opened Ecs

  /** A `TimeRunnerEnded` event: the runner, and whether `is_completed()` holds of it. */
  datatype TimeRunnerEnded = TimeRunnerEnded(timeRunner: Entity, completed: bool)

  /** The despawns of `despawn_done_time_runners` over the events, in order. */
  function DoneDespawns(alive: set<Entity>, events: seq<TimeRunnerEnded>): (commands: seq<Command>)
    ensures forall c :: c in commands ==> c.Despawn?
    ensures forall x :: Despawn(x) in commands <==> x in alive && TimeRunnerEnded(x, true) in events
    ensures |commands| <= |events|
  {
    if events == [] then []
    else
      var n := |events| - 1;
      var event := events[n];
      assert events == events[..n] + [event];
      DoneDespawns(alive, events[..n])
        + (if event.completed && event.timeRunner in alive then [Despawn(event.timeRunner)] else [])
  }

  /** `despawn_done_time_runners`: a runner whose run ended completed is despawned, if it
      still exists. */
  method DespawnDoneTimeRunners(w: World, events: seq<TimeRunnerEnded>) returns (commands: seq<Command>)
    ensures commands == DoneDespawns(w.Alive(), events)
  {
    commands := [];
    for i := 0 to |events|
      invariant commands == DoneDespawns(w.Alive(), events[..i])
    {
      assert events[..i + 1][..i] == events[..i];
      var event := events[i];
      if event.completed {
        if event.timeRunner in w.Alive() {
          commands := commands + [Despawn(event.timeRunner)];
        }
      }
    }
    assert events[..|events|] == events;
  }

  /** Every child of a runner is the tween being removed; vacuously so when it has none. */
  predicate OnlyChildIs(children: seq<Entity>, removed: Entity) {
    forall child :: child in children ==> child == removed
  }

  /** The despawns of `despawn_time_runners_with_no_children` over the runners among `es`.
      `runner in w.Alive()` stands for the `get_entity` check; a runner the query yields
      always passes it. */
  function ChildlessDespawns(w: World, removed: Entity, es: seq<Entity>): seq<Command>
  {
    if es == [] then []
    else
      var n := |es| - 1;
      var runner := es[n];
      ChildlessDespawns(w, removed, es[..n])
        + (if w.IsAnimationParent(runner) && OnlyChildIs(w.data[runner].children.value, removed) && runner in w.Alive()
           then [Despawn(runner)] else [])
  }

  /** A runner is despawned exactly when all of its children are the removed tween. The
      verdict on each runner depends on that runner's children alone. */
  lemma {:induction false} ChildlessDespawnsExactly(w: World, removed: Entity, es: seq<Entity>, x: Entity)
    ensures forall c :: c in ChildlessDespawns(w, removed, es) ==> c.Despawn?
    ensures Despawn(x) in ChildlessDespawns(w, removed, es)
        <==> x in es && w.IsAnimationParent(x) && OnlyChildIs(w.data[x].children.value, removed)
  {
    if es != [] {
      var n := |es| - 1;
      assert es == es[..n] + [es[n]];
      ChildlessDespawnsExactly(w, removed, es[..n], x);
    }
  }

  /** A runner with a child other than the removed tween is kept. */
  lemma RunnerWithOtherChildIsKept(w: World, removed: Entity, runner: Entity, child: Entity)
    requires w.IsAnimationParent(runner) && child in w.data[runner].children.value && child != removed
    ensures Despawn(runner) !in ChildlessDespawns(w, removed, w.order)
  {
    ChildlessDespawnsExactly(w, removed, w.order, runner);
  }

  /** `despawn_time_runners_with_no_children`, with the labelled `continue` as a `break`
      out of the scan of the children. */
  method DespawnTimeRunnersWithNoChildren(w: World, removed: Entity) returns (commands: seq<Command>)
    ensures commands == ChildlessDespawns(w, removed, w.order)
  {
    commands := [];
    for i := 0 to |w.order|
      invariant commands == ChildlessDespawns(w, removed, w.order[..i])
    {
      assert w.order[..i + 1][..i] == w.order[..i];
      var runner := w.order[i];
      if w.IsAnimationParent(runner) {
        var children := w.data[runner].children.value;
        var j := 0;
        while j < |children|
          invariant 0 <= j <= |children|
          invariant forall k :: 0 <= k < j ==> children[k] == removed
        {
          if children[j] != removed {
            break;
          }
          j := j + 1;
        }
        if j < |children| {
          assert children[j] in children && children[j] != removed;
        }
        if j == |children| && runner in w.Alive() {
          commands := commands + [Despawn(runner)];
        }
      }
    }
    assert w.order[..|w.order|] == w.order;
  }
}
