/** Removing entities from tween targets, and destroying a tween left without targets.
    The tween components are changed at once (the systems hold them mutably); the
    despawns are only queued. */
module TweenTargetRemover {
  import opened Ecs
  import opened TweenRequests
  import opened TargetExtractor
  import opened EventReaderMacros

  /** What `retain(|target| !targets_to_match.contains(target))` leaves of a target list. */
  function Retained(targets: seq<Entity>, toMatch: seq<Entity>): (kept: seq<Entity>)
    ensures forall x :: x in kept <==> x in targets && x !in toMatch
    ensures |kept| <= |targets|
  {
    if targets == [] then []
    else
      var n := |targets| - 1;
      assert targets == targets[..n] + [targets[n]];
      var init := Retained(targets[..n], toMatch);
      if targets[n] in toMatch then init else init + [targets[n]]
  }

  /** Filtering a concatenation filters the parts: the kept targets stay in their order. */
  lemma {:induction false} RetainedAppend(a: seq<Entity>, b: seq<Entity>, toMatch: seq<Entity>)
    ensures Retained(a + b, toMatch) == Retained(a, toMatch) + Retained(b, toMatch)
  {
    if b == [] {
      assert a + b == a;
    } else {
      var n := |b| - 1;
      assert (a + b)[..|a + b| - 1] == a + b[..n];
      assert (a + b)[|a + b| - 1] == b[n];
      RetainedAppend(a, b[..n], toMatch);
    }
  }

  /** A list none of whose targets is matched is kept whole. */
  lemma {:induction false} RetainedKeepsUnmatched(targets: seq<Entity>, toMatch: seq<Entity>)
    requires forall x :: x in targets ==> x !in toMatch
    ensures Retained(targets, toMatch) == targets
  {
    if targets != [] {
      var n := |targets| - 1;
      assert targets == targets[..n] + [targets[n]];
      RetainedKeepsUnmatched(targets[..n], toMatch);
    }
  }

  /** Filtering twice by the same list filters once. */
  lemma RetainedIdempotent(targets: seq<Entity>, toMatch: seq<Entity>)
    ensures Retained(Retained(targets, toMatch), toMatch) == Retained(targets, toMatch)
  {
    RetainedKeepsUnmatched(Retained(targets, toMatch), toMatch);
  }

  /** `Vec::retain` over the target list. */
  method Retain(targets: seq<Entity>, toMatch: seq<Entity>) returns (kept: seq<Entity>)
    ensures kept == Retained(targets, toMatch)
  {
    kept := [];
    for i := 0 to |targets|
      invariant kept == Retained(targets[..i], toMatch)
    {
      assert targets[..i + 1][..i] == targets[..i];
      if targets[i] !in toMatch {
        kept := kept + [targets[i]];
      }
    }
    assert targets[..|targets|] == targets;
  }

  /** The effect of the removal on one tween: the tween afterwards and the despawn it queued. */
  datatype Removal = Removal(tween: ComponentTween, commands: seq<Command>)

  /** `remove_target_and_destroy_if_has_none`, as a function of the tween it is given and of
      the entities `commands.get_entity` finds. */
  function RemoveTargets(toMatch: seq<Entity>, tweenEntity: Entity, tween: ComponentTween, alive: set<Entity>): (r: Removal)
    ensures r.tween.tweenType == tween.tweenType
    ensures r.commands == [] || r.commands == [Despawn(tweenEntity)]
  {
    match tween.target
    case TargetEntity(target) =>
      Removal(tween, if target in toMatch && tweenEntity in alive then [Despawn(tweenEntity)] else [])
    case TargetEntities(targets) =>
      var kept := Retained(targets, toMatch);
      Removal(tween.(target := TargetEntities(kept)),
              if kept == [] && tweenEntity in alive then [Despawn(tweenEntity)] else [])
    case Untargeted =>
      Removal(tween, [])
  }

  method RemoveTargetAndDestroyIfHasNone(toMatch: seq<Entity>, tweenEntity: Entity, tween: ComponentTween, alive: set<Entity>)
    returns (after: ComponentTween, commands: seq<Command>)
    ensures Removal(after, commands) == RemoveTargets(toMatch, tweenEntity, tween, alive)
  {
    after, commands := tween, [];
    match tween.target {
      case TargetEntity(target) =>
        if target in toMatch && tweenEntity in alive {
          commands := [Despawn(tweenEntity)];
        }
      case TargetEntities(targets) =>
        var kept := Retain(targets, toMatch);
        after := tween.(target := TargetEntities(kept));
        if kept == [] && tweenEntity in alive {
          commands := [Despawn(tweenEntity)];
        }
      case Untargeted =>
    }
  }

  /** A single-target tween keeps its target and is despawned exactly when that target is
      one of the removed entities. */
  lemma SingleTargetRemoval(toMatch: seq<Entity>, tweenEntity: Entity, tween: ComponentTween, alive: set<Entity>)
    requires tween.target.TargetEntity? && tweenEntity in alive
    ensures RemoveTargets(toMatch, tweenEntity, tween, alive).tween == tween
    ensures RemoveTargets(toMatch, tweenEntity, tween, alive).commands == [Despawn(tweenEntity)]
        <==> tween.target.entity in toMatch
  {
  }

  /** A multi-target tween afterwards targets none of the removed entities and every
      other target, in the original order. */
  lemma {:induction false} MultiTargetRemoval(toMatch: seq<Entity>, tweenEntity: Entity, tween: ComponentTween, alive: set<Entity>)
    requires tween.target.TargetEntities?
    ensures var after := GetTweenTargets(RemoveTargets(toMatch, tweenEntity, tween, alive).tween);
      && (forall x :: x in after <==> x in tween.target.entities && x !in toMatch)
      && (forall a, b :: tween.target.entities == a + b ==>
            after == Retained(a, toMatch) + Retained(b, toMatch))
  {
    forall a, b | tween.target.entities == a + b
      ensures Retained(tween.target.entities, toMatch) == Retained(a, toMatch) + Retained(b, toMatch)
    {
      RetainedAppend(a, b, toMatch);
    }
  }

  /** A tween that names entities is despawned exactly when it exists and every one of its
      targets is removed; for a list this includes one that was empty to begin with. */
  lemma DespawnIffNoTargetSurvives(toMatch: seq<Entity>, tweenEntity: Entity, tween: ComponentTween, alive: set<Entity>)
    requires !tween.target.Untargeted?
    ensures RemoveTargets(toMatch, tweenEntity, tween, alive).commands == [Despawn(tweenEntity)]
        <==> tweenEntity in alive && forall x :: x in GetTweenTargets(tween) ==> x in toMatch
  {
    if tween.target.TargetEntities? {
      var kept := Retained(tween.target.entities, toMatch);
      if kept != [] {
        assert kept[0] in kept;
      }
    }
  }

  /** A tween whose target names no entity is neither changed nor despawned. */
  lemma UntargetedUntouched(toMatch: seq<Entity>, tweenEntity: Entity, tween: ComponentTween, alive: set<Entity>)
    requires tween.target.Untargeted?
    ensures RemoveTargets(toMatch, tweenEntity, tween, alive) == Removal(tween, [])
  {
  }

  /** Removing entities a tween does not target leaves it as it was, unless its list was empty. */
  lemma RemovalOfUnrelatedTargets(toMatch: seq<Entity>, tweenEntity: Entity, tween: ComponentTween, alive: set<Entity>)
    requires forall x :: x in GetTweenTargets(tween) ==> x !in toMatch
    requires !(tween.target.TargetEntities? && tween.target.entities == [])
    ensures RemoveTargets(toMatch, tweenEntity, tween, alive) == Removal(tween, [])
  {
    if tween.target.TargetEntities? {
      RetainedKeepsUnmatched(tween.target.entities, toMatch);
    }
  }

  /** Repeating a removal does not change the tween further. */
  lemma RemovalIdempotent(toMatch: seq<Entity>, tweenEntity: Entity, tween: ComponentTween, alive: set<Entity>)
    ensures var once := RemoveTargets(toMatch, tweenEntity, tween, alive).tween;
      RemoveTargets(toMatch, tweenEntity, once, alive).tween == once
  {
    if tween.target.TargetEntities? {
      RetainedIdempotent(tween.target.entities, toMatch);
    }
  }

  // ---------------------------------------------------------------------------------
  // Sweeping every tween of a type

  /** What the systems return: the world with the tweens changed, and the queued commands. */
  datatype Outcome = Outcome(world: World, commands: seq<Command>)

  /** The entity `e`, a tween of type `t`, after the removal. */
  function Filtered(w: World, t: TweenType, toMatch: seq<Entity>, e: Entity): EntityData
    requires w.IsTweenOfType(e, t)
  {
    w.data[e].(tween := Some(RemoveTargets(toMatch, e, w.data[e].tween.value, w.Alive()).tween))
  }

  /** The despawns of a sweep over the entities `es`, in that order. */
  function SweepCommands(w: World, t: TweenType, toMatch: seq<Entity>, es: seq<Entity>): seq<Command>
  {
    if es == [] then []
    else
      var n := |es| - 1;
      var e := es[n];
      SweepCommands(w, t, toMatch, es[..n])
        + (if w.IsTweenOfType(e, t) then RemoveTargets(toMatch, e, w.data[e].tween.value, w.Alive()).commands else [])
  }

  /** The components once the tweens of type `t` among `done` have been filtered. */
  function Swept(w: World, t: TweenType, toMatch: seq<Entity>, done: seq<Entity>): map<Entity, EntityData>
  {
    map e | e in w.data :: if e in done && w.IsTweenOfType(e, t) then Filtered(w, t, toMatch, e) else w.data[e]
  }

  /** The removal applied to every tween of type `t`, in query order. Each tween is visited
      once and sees only its own component, so the tweens are filtered independently. */
  function RemoveFromTweensOfType(w: World, t: TweenType, toMatch: seq<Entity>): Outcome
  {
    Outcome(World(w.order, Swept(w, t, toMatch, w.order)), SweepCommands(w, t, toMatch, w.order))
  }

  /** Visiting one more entity of the query. */
  lemma SweptStep(w: World, t: TweenType, toMatch: seq<Entity>, done: seq<Entity>, e: Entity)
    requires e in w.data && e !in done
    ensures Swept(w, t, toMatch, done + [e])
         == if w.IsTweenOfType(e, t) then Swept(w, t, toMatch, done)[e := Filtered(w, t, toMatch, e)]
            else Swept(w, t, toMatch, done)
  {
  }

  /** The despawns of a sweep are exactly those of the tweens of type `t` that the removal destroys. */
  lemma {:induction false} SweepDespawns(w: World, t: TweenType, toMatch: seq<Entity>, es: seq<Entity>, x: Entity)
    ensures forall c :: c in SweepCommands(w, t, toMatch, es) ==> c.Despawn?
    ensures Despawn(x) in SweepCommands(w, t, toMatch, es)
        <==> x in es && w.IsTweenOfType(x, t) && RemoveTargets(toMatch, x, w.data[x].tween.value, w.Alive()).commands != []
  {
    if es != [] {
      var n := |es| - 1;
      assert es == es[..n] + [es[n]];
      SweepDespawns(w, t, toMatch, es[..n], x);
    }
  }

  /** After a sweep every tween of type `t` with a target list has lost the matched targets
      and kept everything else; every other entity, single-target and untargeted tweens of
      the type included, is as it was. */
  lemma SweepChangesOnlyTweensOfType(w: World, t: TweenType, toMatch: seq<Entity>, e: Entity)
    requires w.Valid() && e in w.data
    ensures var after := RemoveFromTweensOfType(w, t, toMatch).world;
      && after.data.Keys == w.data.Keys
      && (!(w.IsTweenOfType(e, t) && w.data[e].tween.value.target.TargetEntities?) ==> after.data[e] == w.data[e])
      && (w.IsTweenOfType(e, t) && w.data[e].tween.value.target.TargetEntities? ==>
            var tween := w.data[e].tween.value;
            after.data[e] == w.data[e].(tween := Some(tween.(target := TargetEntities(Retained(tween.target.entities, toMatch))))))
  {
  }

  /** The loop the three removal observers share: `for (tween, entity, ..) in &mut tweens_of_type`. */
  method RemoveFromEveryTweenOfType(w: World, t: TweenType, toMatch: seq<Entity>) returns (after: World, commands: seq<Command>)
    requires w.Valid()
    ensures Outcome(after, commands) == RemoveFromTweensOfType(w, t, toMatch)
  {
    var data := w.data;
    commands := [];
    for i := 0 to |w.order|
      invariant data == Swept(w, t, toMatch, w.order[..i])
      invariant commands == SweepCommands(w, t, toMatch, w.order[..i])
    {
      var e := w.order[i];
      assert w.order[..i + 1] == w.order[..i] + [e];
      assert w.order[..i + 1][..i] == w.order[..i];
      assert e !in w.order[..i];
      SweptStep(w, t, toMatch, w.order[..i], e);
      var d := data[e];
      if d.tween.Some? && d.tween.value.tweenType == t {
        var tween, despawn := RemoveTargetAndDestroyIfHasNone(toMatch, e, d.tween.value, w.Alive());
        data := data[e := d.(tween := Some(tween))];
        commands := commands + despawn;
      }
    }
    assert w.order[..|w.order|] == w.order;
    after := World(w.order, data);
  }

  /** `on_remove_targets_from_tweens_of_type`: an empty request is ignored. */
  method OnRemoveTargetsFromTweensOfType(w: World, trigger: RemoveTargetsFromAllTweensOfType)
    returns (after: World, commands: seq<Command>)
    requires w.Valid()
    ensures trigger.targets == [] ==> after == w && commands == []
    ensures trigger.targets != [] ==>
      Outcome(after, commands) == RemoveFromTweensOfType(w, trigger.tweenType, trigger.targets)
  {
    if trigger.targets == [] {
      return w, [];
    }
    after, commands := RemoveFromEveryTweenOfType(w, trigger.tweenType, trigger.targets);
  }

  /** `on_remove_targets_from_all_tweens_targeting_them_request`: only the
      `RemoveTargetsFromAllTweensTargetingThem` request with a non-empty list acts. */
  method OnRemoveTargetsFromAllTweensTargetingThemRequest(w: World, t: TweenType, trigger: TweenRequest)
    returns (after: World, commands: seq<Command>)
    requires w.Valid()
    ensures !(trigger.RemoveTargetsFromAllTweensTargetingThem? && trigger.entities != []) ==>
      after == w && commands == []
    ensures trigger.RemoveTargetsFromAllTweensTargetingThem? && trigger.entities != [] ==>
      Outcome(after, commands) == RemoveFromTweensOfType(w, t, trigger.entities)
  {
    after, commands := w, [];
    if trigger.RemoveTargetsFromAllTweensTargetingThem? {
      if trigger.entities == [] {
        return;
      }
      after, commands := RemoveFromEveryTweenOfType(w, t, trigger.entities);
    }
  }

  /** `remove_tween_target_on_target_despawn`: the entity losing its `TweenTargetOf` is
      removed, alone, from every tween of the type. */
  method RemoveTweenTargetOnTargetDespawn(w: World, t: TweenType, target: Entity)
    returns (after: World, commands: seq<Command>)
    requires w.Valid()
    ensures Outcome(after, commands) == RemoveFromTweensOfType(w, t, [target])
  {
    after, commands := RemoveFromEveryTweenOfType(w, t, [target]);
  }

  // ---------------------------------------------------------------------------------
  // Removal requests addressed to one tween

  /** The selector `TweenRequest::RemoveEntity` given to `read_single_field_variant!`. */
  function RemoveEntityVariant(request: TweenRequest): Option<RemoveTweenTargets> {
    match request
    case RemoveEntity(value) => Some(value)
    case _ => None
  }

  /** One `RemoveEntity` request: it acts on the named tween only if that entity holds a
      tween of type `t` with the schedule's time-step marker. */
  function ApplyRemoveRequest(o: Outcome, t: TweenType, request: RemoveTweenTargets): (r: Outcome)
    ensures r.world.order == o.world.order && r.world.data.Keys == o.world.data.Keys
  {
    var w := o.world;
    var e := request.tweenEntity;
    if w.IsTweenOfType(e, t) && w.data[e].timeStepMarker then
      var removal := RemoveTargets(request.targetsToRemove, e, w.data[e].tween.value, w.Alive());
      Outcome(World(w.order, w.data[e := w.data[e].(tween := Some(removal.tween))]), o.commands + removal.commands)
    else o
  }

  /** The requests handled one after the other; a later request sees the lists an earlier
      one already filtered. */
  function ApplyRemoveRequests(w: World, t: TweenType, requests: seq<RemoveTweenTargets>): (r: Outcome)
    ensures r.world.order == w.order && r.world.data.Keys == w.data.Keys
  {
    if requests == [] then Outcome(w, [])
    else
      var n := |requests| - 1;
      ApplyRemoveRequest(ApplyRemoveRequests(w, t, requests[..n]), t, requests[n])
  }

  /** An entity no request names keeps its components and is not despawned; every queued
      command is the despawn of a named tween. */
  lemma {:induction false} RemoveRequestsTouchOnlyNamedTweens(w: World, t: TweenType, requests: seq<RemoveTweenTargets>, x: Entity)
    requires forall k :: 0 <= k < |requests| ==> requests[k].tweenEntity != x
    ensures var r := ApplyRemoveRequests(w, t, requests);
      && (x in w.data ==> r.world.data[x] == w.data[x])
      && Despawn(x) !in r.commands
      && forall c :: c in r.commands ==> c.Despawn?
  {
    if requests != [] {
      var n := |requests| - 1;
      RemoveRequestsTouchOnlyNamedTweens(w, t, requests[..n], x);
    }
  }

  /** A single request filters the named tween if it qualifies, and otherwise does nothing. */
  lemma OneRemoveRequest(w: World, t: TweenType, request: RemoveTweenTargets)
    ensures var e := request.tweenEntity;
      ApplyRemoveRequests(w, t, [request])
        == if w.IsTweenOfType(e, t) && w.data[e].timeStepMarker then
             var removal := RemoveTargets(request.targetsToRemove, e, w.data[e].tween.value, w.Alive());
             Outcome(World(w.order, w.data[e := w.data[e].(tween := Some(removal.tween))]), removal.commands)
           else Outcome(w, [])
  {
    assert [request][..0] == [];
  }

  /** `listen_to_target_removal_requests`. */
  method ListenToTargetRemovalRequests(w: World, t: TweenType, messages: seq<TweenRequest>)
    returns (after: World, commands: seq<Command>)
    ensures Outcome(after, commands)
         == ApplyRemoveRequests(w, t, ReadSingleFieldVariant(messages, RemoveEntityVariant))
  {
    var requests := ReadSingleFieldVariant(messages, RemoveEntityVariant);
    after, commands := w, [];
    for i := 0 to |requests|
      invariant Outcome(after, commands) == ApplyRemoveRequests(w, t, requests[..i])
    {
      assert requests[..i + 1][..i] == requests[..i];
      var request := requests[i];
      var e := request.tweenEntity;
      if after.IsTweenOfType(e, t) && after.data[e].timeStepMarker {
        var tween, despawn := RemoveTargetAndDestroyIfHasNone(request.targetsToRemove, e, after.data[e].tween.value, after.Alive());
        after := World(after.order, after.data[e := after.data[e].(tween := Some(tween))]);
        commands := commands + despawn;
      }
    }
    assert requests[..|requests|] == requests;
  }

  // ---------------------------------------------------------------------------------
  // Newborn tweens

  /** The `TweenTargetOf(tweenEntity)` inserts for the targets that exist, in order. */
  function NewbornTargetTags(targets: seq<Entity>, alive: set<Entity>, tweenEntity: Entity): (commands: seq<Command>)
    ensures forall c :: c in commands ==>
      c.InsertTweenTargetOf? && c.tween == tweenEntity && c.entity in targets && c.entity in alive
    ensures forall x :: x in targets && x in alive ==> InsertTweenTargetOf(x, tweenEntity) in commands
    ensures |commands| <= |targets|
  {
    if targets == [] then []
    else
      var n := |targets| - 1;
      assert targets == targets[..n] + [targets[n]];
      NewbornTargetTags(targets[..n], alive, tweenEntity)
        + (if targets[n] in alive then [InsertTweenTargetOf(targets[n], tweenEntity)] else [])
  }

  /** Each alive target gets as many inserts as it has entries in the list; a missing
      target gets none. */
  lemma {:induction false} NewbornTagCount(targets: seq<Entity>, alive: set<Entity>, tweenEntity: Entity, x: Entity)
    ensures multiset(NewbornTargetTags(targets, alive, tweenEntity))[InsertTweenTargetOf(x, tweenEntity)]
         == if x in alive then multiset(targets)[x] else 0
  {
    if targets != [] {
      var n := |targets| - 1;
      assert targets == targets[..n] + [targets[n]];
      NewbornTagCount(targets[..n], alive, tweenEntity, x);
    }
  }

  /** `track_newborn_tween_targets`. */
  method TrackNewbornTweenTargets(w: World, t: TweenType, newborn: Entity) returns (commands: seq<Command>)
    ensures commands
         == if w.IsTweenOfType(newborn, t)
            then NewbornTargetTags(GetTweenTargets(w.data[newborn].tween.value), w.Alive(), newborn)
            else []
  {
    commands := [];
    if w.IsTweenOfType(newborn, t) {
      var targets := GetTweenTargets(w.data[newborn].tween.value);
      for i := 0 to |targets|
        invariant commands == NewbornTargetTags(targets[..i], w.Alive(), newborn)
      {
        assert targets[..i + 1][..i] == targets[..i];
        if targets[i] in w.Alive() {
          commands := commands + [InsertTweenTargetOf(targets[i], newborn)];
        }
      }
      assert targets[..|targets|] == targets;
    }
  }
}
