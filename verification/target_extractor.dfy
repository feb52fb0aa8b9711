/** `get_tween_targets`: a tween's target as a list of entities. */
module TargetExtractor {
  import opened Ecs

  function GetTweenTargets(tween: ComponentTween): (targets: seq<Entity>)
    ensures tween.target.TargetEntity? ==> targets == [tween.target.entity]
    ensures tween.target.TargetEntities? ==> targets == tween.target.entities
    ensures tween.target.Untargeted? ==> targets == []
  {
    match tween.target
    case TargetEntity(dominantTarget) => [dominantTarget]
    case TargetEntities(dominantTargets) => dominantTargets
    case Untargeted => []
  }
}
