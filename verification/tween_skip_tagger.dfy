/** Tagging the tweens of an animation parent with `SkipTween`, or untagging them, on request. */
module TweenSkipTagger {
  import opened Ecs

  datatype TweenSkipTagRequestType = Insert | Remove

  /** The `#[default]` variant. */
  const DefaultRequestType: TweenSkipTagRequestType := Insert

  /** The request triggered on an animation parent. */
  datatype TweenSkipTagRequest = TweenSkipTagRequest(animationParent: Entity, requestType: TweenSkipTagRequestType)

  /** The request a tween emits as its event payload. */
  datatype TweenSkipTagTweenRequest = TweenSkipTagTweenRequest(animationParent: Option<Entity>, requestType: TweenSkipTagRequestType)

  /** The derived `Default`: no parent, and the default request type. */
  const DefaultTweenRequest: TweenSkipTagTweenRequest := TweenSkipTagTweenRequest(None, DefaultRequestType)

  /** The command a request type queues for one tween child. */
  function TagCommand(requestType: TweenSkipTagRequestType, child: Entity): Command {
    match requestType
    case Insert => InsertSkipTween(child)
    case Remove => RemoveSkipTween(child)
  }

  /** What the query `Query<(), With<TweenInterpolationValue>>` contains. */
  predicate IsTween(w: World, e: Entity) {
    e in w.data && w.data[e].interpolationValue
  }

  /** The commands for the children `children`, in order. */
  function ChildTagCommands(w: World, requestType: TweenSkipTagRequestType, children: seq<Entity>): (commands: seq<Command>)
    ensures forall c :: c in commands ==> c == TagCommand(requestType, c.entity) && c.entity in children && IsTween(w, c.entity)
    ensures forall x :: x in children && IsTween(w, x) ==> TagCommand(requestType, x) in commands
  {
    if children == [] then []
    else
      var n := |children| - 1;
      assert children == children[..n] + [children[n]];
      ChildTagCommands(w, requestType, children[..n])
        + (if IsTween(w, children[n]) then [TagCommand(requestType, children[n])] else [])
  }

  /** The commands of `tag_or_untag_to_skip_by_request_type`. */
  function SkipTagCommands(w: World, animationParent: Entity, requestType: TweenSkipTagRequestType): seq<Command>
  {
    if w.IsAnimationParent(animationParent)
    then ChildTagCommands(w, requestType, w.data[animationParent].children.value)
    else []
  }

  /** `Insert` tags exactly the tween children of an animation parent and `Remove` untags
      exactly those; a child that is not a tween, or a target that is not a time runner
      with children, gets nothing. */
  lemma SkipTagCommandsExactly(w: World, animationParent: Entity, requestType: TweenSkipTagRequestType, x: Entity)
    ensures forall c :: c in SkipTagCommands(w, animationParent, requestType) ==> c == TagCommand(requestType, c.entity)
    ensures TagCommand(requestType, x) in SkipTagCommands(w, animationParent, requestType)
        <==> w.IsAnimationParent(animationParent) && x in w.data[animationParent].children.value && IsTween(w, x)
  {
    if w.IsAnimationParent(animationParent) && TagCommand(requestType, x) in SkipTagCommands(w, animationParent, requestType) {
      assert TagCommand(requestType, x).entity == x;
    }
  }

  /** `tag_or_untag_to_skip_by_request_type`. */
  method TagOrUntagToSkipByRequestType(w: World, animationParent: Entity, requestType: TweenSkipTagRequestType)
    returns (commands: seq<Command>)
    ensures commands == SkipTagCommands(w, animationParent, requestType)
  {
    commands := [];
    if w.IsAnimationParent(animationParent) {
      var children := w.data[animationParent].children.value;
      for i := 0 to |children|
        invariant commands == ChildTagCommands(w, requestType, children[..i])
      {
        assert children[..i + 1][..i] == children[..i];
        var childEntity := children[i];
        if IsTween(w, childEntity) {
          match requestType {
            case Insert => commands := commands + [InsertSkipTween(childEntity)];
            case Remove => commands := commands + [RemoveSkipTween(childEntity)];
          }
        }
      }
      assert children[..|children|] == children;
    }
  }

  /** `listen_to_regular_event_trigger`. */
  method ListenToRegularEventTrigger(w: World, trigger: TweenSkipTagRequest) returns (commands: seq<Command>)
    ensures commands == SkipTagCommands(w, trigger.animationParent, trigger.requestType)
  {
    commands := TagOrUntagToSkipByRequestType(w, trigger.animationParent, trigger.requestType);
  }

  /** The commands of `listen_to_triggers_from_tweens`: a request without a parent does nothing. */
  function TweenTriggerCommands(w: World, data: TweenSkipTagTweenRequest): seq<Command> {
    match data.animationParent
    case Some(animationParent) => SkipTagCommands(w, animationParent, data.requestType)
    case None => []
  }

  /** `listen_to_triggers_from_tweens`. */
  method ListenToTriggersFromTweens(w: World, data: TweenSkipTagTweenRequest) returns (commands: seq<Command>)
    ensures commands == TweenTriggerCommands(w, data)
  {
    commands := [];
    if data.animationParent.Some? {
      commands := TagOrUntagToSkipByRequestType(w, data.animationParent.value, data.requestType);
    }
  }

  /** A default tween request asks for `Insert` but names no parent, so it tags nothing. */
  lemma DefaultTweenRequestTagsNothing(w: World)
    ensures DefaultTweenRequest.requestType == Insert
    ensures TweenTriggerCommands(w, DefaultTweenRequest) == []
  {
  }
}
