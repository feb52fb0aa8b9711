/** Marking newly added animation parents that hold an event-emitting tween with
    `AnimationParentToDestroyIfOnlyHasEventsLeft`. */
module EventAnimationParentTagger {
  import opened Ecs

  /** Some child is in `Query<(), With<EventEmittingTween>>`. */
  predicate HasEventChild(w: World, children: seq<Entity>) {
    exists child :: child in children && child in w.data && w.data[child].eventEmitting
  }

  /** The markers over the runners among `es` that were added this tick (`added`). */
  function DestructionMarkers(w: World, added: set<Entity>, es: seq<Entity>): seq<Command>
  {
    if es == [] then []
    else
      var n := |es| - 1;
      var parent := es[n];
      DestructionMarkers(w, added, es[..n])
        + (if parent in added && w.IsAnimationParent(parent) && HasEventChild(w, w.data[parent].children.value)
           then [InsertDestroyMarker(parent)] else [])
  }

  /** A runner is marked exactly when it was added this tick and one of its children emits
      events. Only such runners are ever named, never their children. */
  lemma {:induction false} DestructionMarkersExactly(w: World, added: set<Entity>, es: seq<Entity>, x: Entity)
    ensures forall c :: c in DestructionMarkers(w, added, es) ==>
      c.InsertDestroyMarker? && c.entity in added && w.IsAnimationParent(c.entity)
    ensures InsertDestroyMarker(x) in DestructionMarkers(w, added, es)
        <==> x in es && x in added && w.IsAnimationParent(x) && HasEventChild(w, w.data[x].children.value)
  {
    if es != [] {
      var n := |es| - 1;
      assert es == es[..n] + [es[n]];
      DestructionMarkersExactly(w, added, es[..n], x);
    }
  }

  /** Over distinct runners, each is marked at most once. */
  lemma {:induction false} MarkedAtMostOnce(w: World, added: set<Entity>, es: seq<Entity>, x: Entity)
    requires forall i, j :: 0 <= i < j < |es| ==> es[i] != es[j]
    ensures multiset(DestructionMarkers(w, added, es))[InsertDestroyMarker(x)] <= 1
  {
    if es != [] {
      var n := |es| - 1;
      assert es == es[..n] + [es[n]];
      MarkedAtMostOnce(w, added, es[..n], x);
      if es[n] == x {
        DestructionMarkersExactly(w, added, es[..n], x);
      }
    }
  }

  /** In a well-formed world, whose query order lists each entity once, the system gives
      each parent at most one marker. */
  lemma MarkedAtMostOnceInWorld(w: World, added: set<Entity>, x: Entity)
    requires w.Valid()
    ensures multiset(DestructionMarkers(w, added, w.order))[InsertDestroyMarker(x)] <= 1
  {
    MarkedAtMostOnce(w, added, w.order, x);
  }

  /** `tag_animation_parents_with_destruction_marker`: the scan of the children stops at
      the first event-emitting one. */
  method TagAnimationParentsWithDestructionMarker(w: World, added: set<Entity>) returns (commands: seq<Command>)
    ensures commands == DestructionMarkers(w, added, w.order)
  {
    commands := [];
    for i := 0 to |w.order|
      invariant commands == DestructionMarkers(w, added, w.order[..i])
    {
      assert w.order[..i + 1][..i] == w.order[..i];
      var parentEntity := w.order[i];
      if parentEntity in added && w.IsAnimationParent(parentEntity) {
        var tweenChildren := w.data[parentEntity].children.value;
        var j := 0;
        while j < |tweenChildren|
          invariant 0 <= j <= |tweenChildren|
          invariant forall k :: 0 <= k < j ==> !(tweenChildren[k] in w.data && w.data[tweenChildren[k]].eventEmitting)
        {
          var tweenEntity := tweenChildren[j];
          if tweenEntity in w.data && w.data[tweenEntity].eventEmitting {
            commands := commands + [InsertDestroyMarker(parentEntity)];
            break;
          }
          j := j + 1;
        }
        assert j == |tweenChildren| ==> !HasEventChild(w, tweenChildren);
      }
    }
    assert w.order[..|w.order|] == w.order;
  }
}
