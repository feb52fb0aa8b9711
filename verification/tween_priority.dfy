/** Priority arbitration between tweens of one type. When a tween with an effective
    priority is spawned, it is compared with every other prioritised tween of its type
    outside its own animation; the weaker side gets a `RemoveEntity` request listing the
    stronger side's targets, ties going to the newborn. Nothing is changed here: the
    requests are only written. */
module TweenPriority {
  import opened Ecs
  import opened TweenRequests
  import opened TargetExtractor

  /** The entities the query `tweens_of_type` yields: a tween of type `t` that has a parent. */
  predicate InTweensOfType(w: World, e: Entity, t: TweenType) {
    w.IsTweenOfType(e, t) && w.data[e].childOf.Some?
  }

  /** `try_get_other_tween_priority`: a tween's own priority, else its parent's, else none.
      `handle_tween_priority_on_spawn` applies the same rule to the newborn. */
  function EffectivePriority(w: World, ownPriority: Option<u32>, parent: Entity): (level: Option<u32>)
    ensures ownPriority.Some? ==> level == ownPriority
    ensures ownPriority.None? && parent in w.data ==> level == w.data[parent].priority
    ensures ownPriority.None? && parent !in w.data ==> level == None
  {
    match ownPriority
    case Some(otherPriorityLevel) => Some(otherPriorityLevel)
    case None => if parent in w.data then w.data[parent].priority else None
  }

  /** `remove_intersecting_targets_for_weaker_tween`: the request it writes, if any. */
  function RemoveIntersectingTargetsForWeakerTween(dominant: ComponentTween, weaker: Entity): (written: seq<TweenRequest>)
    ensures written == [] <==> GetTweenTargets(dominant) == []
    ensures written != [] ==> written == [RemoveEntity(RemoveTweenTargets(weaker, GetTweenTargets(dominant)))]
  {
    var dominantTargets := GetTweenTargets(dominant);
    if dominantTargets != [] then [RemoveEntity(RemoveTweenTargets(weaker, dominantTargets))] else []
  }

  /** What the arbitration knows of the newborn tween. */
  datatype Newborn = Newborn(entity: Entity, tween: ComponentTween, parent: Entity, priority: u32)

  /** The loop body of `handle_tween_priority_to_others_of_type` for the tween `other`. */
  function CompareWithOther(w: World, t: TweenType, newborn: Newborn, other: Entity): seq<TweenRequest>
    requires InTweensOfType(w, other, t)
  {
    var d := w.data[other];
    var siblingTweens := newborn.parent == d.childOf.value;
    if other != newborn.entity && !siblingTweens then
      match EffectivePriority(w, d.priority, d.childOf.value)
      case Some(otherPriorityLevel) =>
        if otherPriorityLevel <= newborn.priority then
          RemoveIntersectingTargetsForWeakerTween(newborn.tween, other)
        else
          RemoveIntersectingTargetsForWeakerTween(d.tween.value, newborn.entity)
      case None => []
    else []
  }

  /** The requests of the loop over the entities `es`, in order. */
  function PriorityRequests(w: World, t: TweenType, newborn: Newborn, es: seq<Entity>): seq<TweenRequest>
  {
    if es == [] then []
    else
      var n := |es| - 1;
      PriorityRequests(w, t, newborn, es[..n])
        + (if InTweensOfType(w, es[n], t) then CompareWithOther(w, t, newborn, es[n]) else [])
  }

  /** The requests written when the tween on `newborn` is added. */
  function OnSpawnRequests(w: World, t: TweenType, newborn: Entity): seq<TweenRequest>
  {
    if InTweensOfType(w, newborn, t) then
      var d := w.data[newborn];
      match EffectivePriority(w, d.priority, d.childOf.value)
      case Some(level) => PriorityRequests(w, t, Newborn(newborn, d.tween.value, d.childOf.value, level), w.order)
      case None => []
    else []
  }

  /** One comparison. The newborn itself, its siblings and tweens without an effective
      priority produce nothing. Otherwise, if the other's level is at most the newborn's
      (ties included), the other is named and the newborn's targets listed; if it is
      higher, the newborn is named and the other's targets listed. A request is written
      exactly when the dominant tween has targets. */
  lemma ArbitrationOfOnePair(w: World, t: TweenType, newborn: Newborn, other: Entity)
    requires InTweensOfType(w, other, t)
    ensures var d := w.data[other];
      var level := EffectivePriority(w, d.priority, d.childOf.value);
      var written := CompareWithOther(w, t, newborn, other);
      && |written| <= 1
      && (other == newborn.entity || d.childOf.value == newborn.parent || level.None? ==> written == [])
      && (other != newborn.entity && d.childOf.value != newborn.parent && level.Some? ==>
            var newbornWins := level.value <= newborn.priority;
            var dominantTargets := GetTweenTargets(if newbornWins then newborn.tween else d.tween.value);
            var weaker := if newbornWins then other else newborn.entity;
            written == if dominantTargets == [] then []
                       else [RemoveEntity(RemoveTweenTargets(weaker, dominantTargets))])
  {
  }

  /** How many of the entities `es` the query `tweens_of_type` yields. */
  ghost function TweensOfTypeCount(w: World, t: TweenType, es: seq<Entity>): nat
  {
    if es == [] then 0
    else
      var n := |es| - 1;
      TweensOfTypeCount(w, t, es[..n]) + (if InTweensOfType(w, es[n], t) then 1 else 0)
  }

  /** Each qualifying tween contributes its comparison, once, in query order; nothing else
      is written, so there are no more requests than tweens of the type visited. */
  lemma {:induction false} PriorityRequestsFromOthers(w: World, t: TweenType, newborn: Newborn, es: seq<Entity>)
    ensures |PriorityRequests(w, t, newborn, es)| <= TweensOfTypeCount(w, t, es) <= |es|
    ensures forall r :: r in PriorityRequests(w, t, newborn, es) ==>
      exists other :: other in es && InTweensOfType(w, other, t) && CompareWithOther(w, t, newborn, other) == [r]
    ensures forall other, r :: other in es && InTweensOfType(w, other, t) && r in CompareWithOther(w, t, newborn, other) ==>
      r in PriorityRequests(w, t, newborn, es)
  {
    if es != [] {
      var n := |es| - 1;
      assert es == es[..n] + [es[n]];
      PriorityRequestsFromOthers(w, t, newborn, es[..n]);
      if InTweensOfType(w, es[n], t) {
        ArbitrationOfOnePair(w, t, newborn, es[n]);
      }
    }
  }

  /** A newborn without an effective priority causes no request. */
  lemma NoEffectivePriorityNoRequests(w: World, t: TweenType, newborn: Entity)
    requires InTweensOfType(w, newborn, t)
    requires EffectivePriority(w, w.data[newborn].priority, w.data[newborn].childOf.value).None?
    ensures OnSpawnRequests(w, t, newborn) == []
  {
  }

  /** Every request written on a spawn is a `RemoveEntity`. One naming another tween names a
      non-sibling tween of the type whose effective level is at most the newborn's, and lists
      the newborn's targets; one naming the newborn lists the targets of a non-sibling tween
      whose level is higher. */
  lemma OnSpawnRequestsNameTheWeaker(w: World, t: TweenType, newborn: Entity)
    requires InTweensOfType(w, newborn, t)
    ensures var d := w.data[newborn];
      var level := EffectivePriority(w, d.priority, d.childOf.value);
      forall r :: r in OnSpawnRequests(w, t, newborn) ==>
        && level.Some?
        && r.RemoveEntity?
        && r.request.targetsToRemove != []
        && (r.request.tweenEntity != newborn ==>
              && InTweensOfType(w, r.request.tweenEntity, t)
              && var o := w.data[r.request.tweenEntity];
              && o.childOf.value != d.childOf.value
              && EffectivePriority(w, o.priority, o.childOf.value).Some?
              && EffectivePriority(w, o.priority, o.childOf.value).value <= level.value
              && r.request.targetsToRemove == GetTweenTargets(d.tween.value))
        && (r.request.tweenEntity == newborn ==>
              exists other :: other in w.order && InTweensOfType(w, other, t)
                && other != newborn
                && w.data[other].childOf.value != d.childOf.value
                && EffectivePriority(w, w.data[other].priority, w.data[other].childOf.value).Some?
                && EffectivePriority(w, w.data[other].priority, w.data[other].childOf.value).value > level.value
                && r.request.targetsToRemove == GetTweenTargets(w.data[other].tween.value))
  {
    var d := w.data[newborn];
    var level := EffectivePriority(w, d.priority, d.childOf.value);
    if level.Some? {
      var nb := Newborn(newborn, d.tween.value, d.childOf.value, level.value);
      PriorityRequestsFromOthers(w, t, nb, w.order);
      forall r | r in OnSpawnRequests(w, t, newborn)
        ensures r.RemoveEntity? && r.request.targetsToRemove != []
        ensures r.request.tweenEntity != newborn ==>
              && InTweensOfType(w, r.request.tweenEntity, t)
              && var o := w.data[r.request.tweenEntity];
              && o.childOf.value != d.childOf.value
              && EffectivePriority(w, o.priority, o.childOf.value).Some?
              && EffectivePriority(w, o.priority, o.childOf.value).value <= level.value
              && r.request.targetsToRemove == GetTweenTargets(d.tween.value)
        ensures r.request.tweenEntity == newborn ==>
              exists other :: other in w.order && InTweensOfType(w, other, t)
                && other != newborn
                && w.data[other].childOf.value != d.childOf.value
                && EffectivePriority(w, w.data[other].priority, w.data[other].childOf.value).Some?
                && EffectivePriority(w, w.data[other].priority, w.data[other].childOf.value).value > level.value
                && r.request.targetsToRemove == GetTweenTargets(w.data[other].tween.value)
      {
        var other :| other in w.order && InTweensOfType(w, other, t) && CompareWithOther(w, t, nb, other) == [r];
        ArbitrationOfOnePair(w, t, nb, other);
      }
    }
  }

  /** `handle_tween_priority_to_others_of_type`. */
  method HandleTweenPriorityToOthersOfType(w: World, t: TweenType, newborn: Newborn) returns (written: seq<TweenRequest>)
    ensures written == PriorityRequests(w, t, newborn, w.order)
  {
    written := [];
    for i := 0 to |w.order|
      invariant written == PriorityRequests(w, t, newborn, w.order[..i])
    {
      assert w.order[..i + 1][..i] == w.order[..i];
      var other := w.order[i];
      if InTweensOfType(w, other, t) {
        var d := w.data[other];
        var siblingTweens := newborn.parent == d.childOf.value;
        if other != newborn.entity && !siblingTweens {
          var maybeLevel := EffectivePriority(w, d.priority, d.childOf.value);
          if maybeLevel.Some? {
            if maybeLevel.value <= newborn.priority {
              written := written + RemoveIntersectingTargetsForWeakerTween(newborn.tween, other);
            } else {
              written := written + RemoveIntersectingTargetsForWeakerTween(d.tween.value, newborn.entity);
            }
          }
        }
      }
    }
    assert w.order[..|w.order|] == w.order;
  }

  /** `handle_tween_priority_on_spawn`. */
  method HandleTweenPriorityOnSpawn(w: World, t: TweenType, newborn: Entity) returns (written: seq<TweenRequest>)
    ensures written == OnSpawnRequests(w, t, newborn)
  {
    written := [];
    if InTweensOfType(w, newborn, t) {
      var d := w.data[newborn];
      var maybePriority := EffectivePriority(w, d.priority, d.childOf.value);
      if maybePriority.Some? {
        written := HandleTweenPriorityToOthersOfType(w, t, Newborn(newborn, d.tween.value, d.childOf.value, maybePriority.value));
      }
    }
  }
}
