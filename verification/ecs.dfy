/** The slice of the engine's entity-component world that the helper systems read,
    and the deferred commands they queue. Systems never apply a command themselves:
    they return the commands in the order they would have queued them. */
module Ecs {

  datatype Option<+T> = None | Some(value: T)

  /** An entity id of the host world. */
  type Entity = nat

  /** The unsigned 32-bit level of a TweenPriorityToOthersOfType component. */
  newtype u32 = x: int | 0 <= x < 0x1_0000_0000

  /** Which interpolator type `T` a `ComponentTween<T>` is of. Every generic system
      of the library is instantiated for one such type and only sees tweens of it. */
  type TweenType = nat

  /** What a tween animates: one entity, a list of entities, or one of the target
      kinds of the tween runtime that name no entity. */
  datatype TargetComponent =
    | TargetEntity(entity: Entity)
    | TargetEntities(entities: seq<Entity>)
    | Untargeted

  /** A `ComponentTween<T>`: the interpolator type and the target. */
  datatype ComponentTween = ComponentTween(tweenType: TweenType, target: TargetComponent)

  /** The components of one entity that the library reads. */
  datatype EntityData = EntityData(
    tween: Option<ComponentTween>,   // ComponentTween<T>
    childOf: Option<Entity>,         // ChildOf: the parent entity
    children: Option<seq<Entity>>,   // Children
    priority: Option<u32>,           // TweenPriorityToOthersOfType
    timeRunner: bool,                // TimeRunner (an animation parent)
    timeStepMarker: bool,            // TimeStepMarker<TimeStep> of the schedule's time step
    interpolationValue: bool,        // TweenInterpolationValue: what the skip tagger calls a tween
    eventEmitting: bool              // EventEmittingTween
  )

  /** The world: the entities in query iteration order and their components. */
  datatype World = World(order: seq<Entity>, data: map<Entity, EntityData>) {

    /** Every live entity is listed exactly once. */
    ghost predicate Valid() {
      && (forall i, j :: 0 <= i < j < |order| ==> order[i] != order[j])
      && (forall e :: e in data <==> e in order)
    }

    /** The entities `commands.get_entity` finds. */
    function Alive(): set<Entity> {
      data.Keys
    }

    /** `e` holds a `ComponentTween<T>` for the type `t`. */
    predicate IsTweenOfType(e: Entity, t: TweenType) {
      e in data && data[e].tween.Some? && data[e].tween.value.tweenType == t
    }

    /** `e` is a time runner with a `Children` component: what the queries over
        `&Children, With<TimeRunner>` yield. */
    predicate IsAnimationParent(e: Entity) {
      e in data && data[e].timeRunner && data[e].children.Some?
    }
  }

  /** The commands the systems queue. */
  datatype Command =
    | Despawn(entity: Entity)                              // try_despawn
    | InsertTweenTargetOf(entity: Entity, tween: Entity)   // try_insert(TweenTargetOf(tween))
    | InsertSkipTween(entity: Entity)                      // try_insert(SkipTween)
    | RemoveSkipTween(entity: Entity)                      // try_remove::<SkipTween>()
    | InsertDestroyMarker(entity: Entity)                  // try_insert(AnimationParentToDestroyIfOnlyHasEventsLeft)
}
