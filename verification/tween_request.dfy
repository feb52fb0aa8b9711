/** The request messages through which the systems ask for targets to be removed. */
module TweenRequests {
  import opened Ecs

  /** Remove `targetsToRemove` from the tween on `tweenEntity`. */
  datatype RemoveTweenTargets = RemoveTweenTargets(tweenEntity: Entity, targetsToRemove: seq<Entity>)

  datatype TweenRequest =
    | RemoveEntity(request: RemoveTweenTargets)
    | RemoveTargetsFromAllTweensTargetingThem(entities: seq<Entity>)

  /** Remove `targets` from every tween of the type `tweenType`. */
  datatype RemoveTargetsFromAllTweensOfType =
    RemoveTargetsFromAllTweensOfType(tweenType: TweenType, targets: seq<Entity>)
}
