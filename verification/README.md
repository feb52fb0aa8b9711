# bevy_tween_helpers, modelled in Dafny

A model of the policy logic of `bevy_tween_helpers`. This is a helper library for the
`bevy_tween` animation runtime of the Bevy engine. Each library system reacts to an event:
a tween is spawned, a target despawns, a removal request arrives, a run ends. It then queues
engine commands and writes request messages.

The model represents the engine world as a value, `Ecs.World`. It holds a map from entity
ids to the few components the library reads:

- the tween and its target;
- the parent (`ChildOf`) and the `Children`;
- the optional `TweenPriorityToOthersOfType`;
- the flags `TimeRunner`, `TimeStepMarker`, `TweenInterpolationValue` and `EventEmittingTween`.

The world also holds the order in which queries visit the entities. Each system is a method
with the system's own loop. It returns the commands (`Ecs.Command`) or requests
(`TweenRequests.TweenRequest`) that the system would queue, in the same order. The commands
are not applied. The engine defers them, so within one system run the set of live entities
does not change. The target-removal systems hold the tween components mutably and change
their target lists at once, so those methods also return the updated world.

Every method is specified by a function of its inputs. The lemmas beside the functions state
what the library promises:

- which tweens are destroyed and which targets survive;
- who loses a priority contest;
- which parents are despawned or tagged;
- how the combinators lay spans end to end.

The file `priority_scenarios.dfy` follows the three priority integration tests. It checks
A's spawn in the world before B exists, then both spawns in the two-tween world.

Modules: `Ecs` (world, components, commands), `TweenRequests`, `EventReaderMacros`,
`TargetExtractor`, `TweenTargetRemover`, `TweenPriority`, `PriorityScenarios`,
`AnimationParentDestroyer`, `TweenSkipTagger`, `EventAnimationParentTagger`,
`CustomCombinators`.

## Model

| member | source | states |
|---|---|---|
| `EventReaderMacros.ReadSingleFieldVariant` | src/macros/event_reader_macros.rs:2-9 | every payload read comes from an input event of the variant; every such event's payload is read; the output is no longer than the input |
| `EventReaderMacros.ReadAppend` | src/macros/event_reader_macros.rs:4-7 | reading a concatenation reads the two parts one after the other, so output order follows input order |
| `EventReaderMacros.ReadOne` | src/macros/event_reader_macros.rs:5-6 | one event yields its payload if it is of the variant, and nothing otherwise |
| `EventReaderMacros.ReadLength` | src/macros/event_reader_macros.rs:4-7 | the output length equals the number of input events of the variant |
| `EventReaderMacros.ReadNoneOfVariant` | src/macros/event_reader_macros.rs:6 | events of other variants are dropped: a stream without the variant reads as empty |
| `TargetExtractor.GetTweenTargets` | src/target_extractor.rs:6-11 | a single-entity target `e` yields `[e]`; an entity list yields the same list, in order; any other target kind yields `[]` |
| `TweenTargetRemover.Retained` | src/tween_target_remover.rs:190 | the list kept by `retain` holds exactly the targets not in the removal list, and is no longer than before |
| `TweenTargetRemover.RetainedAppend` | src/tween_target_remover.rs:190 | filtering a concatenation filters each part, so kept targets keep their original order |
| `TweenTargetRemover.RetainedKeepsUnmatched` | src/tween_target_remover.rs:190 | a list with no removed entity is kept whole |
| `TweenTargetRemover.RetainedIdempotent` | src/tween_target_remover.rs:190 | filtering twice by the same list is filtering once |
| `TweenTargetRemover.Retain` | src/tween_target_remover.rs:190 | the loop of `Vec::retain` keeps exactly `Retained(targets, toMatch)` |
| `TweenTargetRemover.RemoveTargets` | src/tween_target_remover.rs:171-213 | the removal keeps the tween's type and queues at most one command, the despawn of that tween |
| `TweenTargetRemover.RemoveTargetAndDestroyIfHasNone` | src/tween_target_remover.rs:171-213 | the method's new tween and commands are those of `RemoveTargets` |
| `TweenTargetRemover.SingleTargetRemoval` | src/tween_target_remover.rs:181-188 | a single-target tween keeps its target and is despawned iff that target is in the removal list |
| `TweenTargetRemover.MultiTargetRemoval` | src/tween_target_remover.rs:189-190 | afterwards a multi-target tween targets exactly its old targets minus the removed ones, in the original order |
| `TweenTargetRemover.DespawnIffNoTargetSurvives` | src/tween_target_remover.rs:179-206 | a tween naming entities is despawned iff it exists and every one of its targets is removed; this includes a list that was already empty |
| `TweenTargetRemover.UntargetedUntouched` | src/tween_target_remover.rs:205 | a tween whose target is neither an entity nor a list is neither changed nor despawned |
| `TweenTargetRemover.RemovalOfUnrelatedTargets` | src/tween_target_remover.rs:189-203 | removing entities a tween does not target leaves it unchanged and alive, unless its list was empty |
| `TweenTargetRemover.RemovalIdempotent` | src/tween_target_remover.rs:190 | repeating a removal does not change the tween further |
| `TweenTargetRemover.SweepDespawns` | src/tween_target_remover.rs:90-99 | a sweep queues only despawns, exactly of the visited tweens of the type that the removal destroys |
| `TweenTargetRemover.SweepChangesOnlyTweensOfType` | src/tween_target_remover.rs:90-99 | after a sweep, every tween of the type with a list has lost the removed targets, kept the rest in order and kept all its other components; every other entity, single-target and untargeted tweens of the type included, is unchanged |
| `TweenTargetRemover.RemoveFromEveryTweenOfType` | src/tween_target_remover.rs:90-99 | the loop over the tween query yields the world and commands of `RemoveFromTweensOfType` |
| `TweenTargetRemover.OnRemoveTargetsFromTweensOfType` | src/tween_target_remover.rs:80-100 | an empty type-wide request changes nothing and queues nothing; a non-empty one sweeps every tween of its type |
| `TweenTargetRemover.OnRemoveTargetsFromAllTweensTargetingThemRequest` | src/tween_target_remover.rs:102-123 | only a `RemoveTargetsFromAllTweensTargetingThem` request with a non-empty list acts, and it sweeps every tween of the type |
| `TweenTargetRemover.RemoveTweenTargetOnTargetDespawn` | src/tween_target_remover.rs:125-141 | the entity losing its `TweenTargetOf` is removed, alone, from every tween of the type |
| `TweenTargetRemover.ApplyRemoveRequest` | src/tween_target_remover.rs:158-167 | one `RemoveEntity` request never changes the world's entities or order |
| `TweenTargetRemover.ApplyRemoveRequests` | src/tween_target_remover.rs:155-168 | handling requests in sequence never changes the world's entities or order |
| `TweenTargetRemover.OneRemoveRequest` | src/tween_target_remover.rs:158-167 | a request filters the named tween iff it exists as a tween of the type with the time-step marker; otherwise it does nothing |
| `TweenTargetRemover.RemoveRequestsTouchOnlyNamedTweens` | src/tween_target_remover.rs:155-168 | an entity that no request names keeps its components and is not despawned; every command is a despawn |
| `TweenTargetRemover.ListenToTargetRemovalRequests` | src/tween_target_remover.rs:143-169 | the system handles the `RemoveEntity` payloads of its messages in order, with `ApplyRemoveRequests` |
| `TweenTargetRemover.NewbornTargetTags` | src/tween_target_remover.rs:72-76 | exactly the targets that exist get `TweenTargetOf(tween)`; missing targets are skipped; there are no more inserts than list entries |
| `TweenTargetRemover.NewbornTagCount` | src/tween_target_remover.rs:72-76 | an existing target gets one insert per time it appears in the list, and a missing target gets none |
| `TweenTargetRemover.TrackNewbornTweenTargets` | src/tween_target_remover.rs:66-78 | a newborn tween of the type tags its existing targets; any other entity causes nothing |
| `TweenPriority.EffectivePriority` | src/tween_priority.rs:120-134 | the effective priority is the tween's own priority if present, else its parent's, else none |
| `TweenPriority.RemoveIntersectingTargetsForWeakerTween` | src/tween_priority.rs:136-148 | nothing is written iff the dominant tween has no targets; otherwise the one request is `RemoveEntity`, naming the weaker tween and listing all of the dominant tween's targets |
| `TweenPriority.ArbitrationOfOnePair` | src/tween_priority.rs:94-117 | the newborn, its siblings and unprioritised tweens are never compared. Otherwise a level at most the newborn's (ties included) names the other tween and lists the newborn's targets; a higher level names the newborn and lists the other's. A request is written iff the dominant tween has targets |
| `TweenPriority.PriorityRequestsFromOthers` | src/tween_priority.rs:94-117 | every request comes from one qualifying tween's comparison, every comparison's request is written, and there are no more requests than tweens of the type visited |
| `TweenPriority.NoEffectivePriorityNoRequests` | src/tween_priority.rs:52-59 | a newborn without an effective priority causes no request |
| `TweenPriority.OnSpawnRequestsNameTheWeaker` | src/tween_priority.rs:44-117 | every request on a spawn is a non-empty `RemoveEntity`. It names either a non-sibling of level at most the newborn's, listing the newborn's targets, or the newborn, listing the targets of a stronger non-sibling |
| `TweenPriority.HandleTweenPriorityToOthersOfType` | src/tween_priority.rs:79-118 | the loop writes exactly `PriorityRequests` over the query order |
| `TweenPriority.HandleTweenPriorityOnSpawn` | src/tween_priority.rs:31-77 | the observer writes exactly `OnSpawnRequests`; arbitration only writes requests and changes no tween |
| `PriorityScenarios.FirstSpawnAlone` | tests/tween_priority_functionality_tests.rs:65-70 | A, spawned before B exists, finds no other prioritised tween of its type and writes nothing |
| `PriorityScenarios.ScenarioRequests` | tests/tween_priority_functionality_tests.rs:60-134 | in the two-tween test world, each spawn writes one request naming the tween of lower level, or, on a tie, the tween that is not the newborn; nothing when B has no priority at all |
| `PriorityScenarios.TenBeatsNine` | tests/tween_priority_functionality_tests.rs:60-85 | with priorities 10 and 9, own or through the parent, the only request names the priority-9 tween B |
| `PriorityScenarios.OneWithoutPriorityLeavesBoth` | tests/tween_priority_functionality_tests.rs:87-112 | with one tween unprioritised, neither spawn writes a request |
| `PriorityScenarios.NineIsDestroyed` | tests/tween_priority_functionality_tests.rs:79-85 | handling the request despawns B and nothing else |
| `AnimationParentDestroyer.DoneDespawns` | src/animation_parent_destoryer.rs:27-33 | a runner is despawned iff it still exists and a completed run-ended event names it; nothing else is despawned |
| `AnimationParentDestroyer.DespawnDoneTimeRunners` | src/animation_parent_destoryer.rs:23-34 | the event loop queues exactly `DoneDespawns` |
| `AnimationParentDestroyer.ChildlessDespawnsExactly` | src/animation_parent_destoryer.rs:41-49 | a runner is despawned iff every one of its children is the removed tween, vacuously so with none; each verdict depends on that runner alone |
| `AnimationParentDestroyer.RunnerWithOtherChildIsKept` | src/animation_parent_destoryer.rs:42-44 | a runner with a child other than the removed tween is kept |
| `AnimationParentDestroyer.DespawnTimeRunnersWithNoChildren` | src/animation_parent_destoryer.rs:36-51 | the labelled nested loop queues exactly `ChildlessDespawns` |
| `TweenSkipTagger.ChildTagCommands` | src/tween_skip_tagger.rs:75-86 | every command is the request type's command for a tween child, and every tween child gets one |
| `TweenSkipTagger.SkipTagCommandsExactly` | src/tween_skip_tagger.rs:67-88 | `Insert` tags and `Remove` untags exactly the tween children of a time runner with children; non-tween children and other targets get nothing |
| `TweenSkipTagger.TagOrUntagToSkipByRequestType` | src/tween_skip_tagger.rs:67-88 | the loop over the children queues exactly `SkipTagCommands` |
| `TweenSkipTagger.ListenToRegularEventTrigger` | src/tween_skip_tagger.rs:35-48 | a triggered request acts on its animation parent |
| `TweenSkipTagger.ListenToTriggersFromTweens` | src/tween_skip_tagger.rs:50-65 | a tween-emitted request acts on its parent; one without a parent does nothing |
| `TweenSkipTagger.DefaultTweenRequestTagsNothing` | src/tween_skip_tagger.rs:12-23 | the default request type is `Insert`, and the default tween request (no parent) tags nothing |
| `EventAnimationParentTagger.DestructionMarkersExactly` | src/event_animation_parent_tagger.rs:16-31 | a runner gets the marker iff it was added this tick and one of its children emits events; only such runners are named, never the child tweens |
| `EventAnimationParentTagger.MarkedAtMostOnce` | src/event_animation_parent_tagger.rs:21-29 | each parent gets at most one insert |
| `EventAnimationParentTagger.MarkedAtMostOnceInWorld` | src/event_animation_parent_tagger.rs:21-29 | in a well-formed world the system's output gives each parent at most one marker |
| `EventAnimationParentTagger.TagAnimationParentsWithDestructionMarker` | src/event_animation_parent_tagger.rs:16-31 | the nested loop, stopping at the first event child, queues exactly `DestructionMarkers` |
| `CustomCombinators.NamedTween` | src/custom_combinators.rs:8-29 | the spawned span is `[pos, pos + duration)` with the given name, and the cursor moves to its end, never backwards; spans laid from one origin stay contiguous, so consecutive combinators are adjacent |
| `CustomCombinators.TweenWithPriority` | src/custom_combinators.rs:31-52 | likewise, with a priority equal to the argument |

## Left out

- Logging is not modelled. This covers the `fn(String)` logging resource, the messages it formats, the `Name` components those messages read, and the `despawned_tween` flag, which only feeds logging. All of it has only textual effects.
- Plugin `build` methods, observer and system registration, and system-set ordering are not modelled. They are registration glue of the engine (`src/bevy_tween_helpers_plugin.rs`, `src/utilities/system_sets.rs`, `src/lib.rs`, `src/utilities/trait_unions.rs`, and the `build` functions in each core file).
- Commands and messages are returned, not applied. The engine's deferred application and observer firing order are out of scope. So are the cascades they cause between ticks, such as two equal-priority tweens spawned together both being destroyed, or a target's despawn removing its tween and then the tween's parent.
- `src/extra_transform_tween_makers.rs` is not part of this model. It builds vector and quaternion records, and its tests check floating-point interpolation results.
- Time advancement and tween progress are not modelled. They belong to the external tween runtime.
- The engine visits query results in an order it does not specify. Every query here visits entities in the world's `order`.
- `TweenTargetRemover.Retain`: the in-place `Vec::retain` is modelled on sequence values, not as an in-place compaction.
- The target kinds of the tween runtime that name no entity are collapsed into one variant, `Untargeted`.
- `AnimationParentDestroyer.DespawnDoneTimeRunners`: `TimeRunnerEnded::is_completed()` belongs to the time-runner library. It is modelled as a boolean field of the event.
- `CustomCombinators.NamedTween`: `Duration` is modelled as an unbounded number of nanoseconds, so the panic of `start + duration` on overflow is not modelled. `TimeSpan::try_from(..).unwrap()` is taken to succeed whenever `start <= end`.
- `CustomCombinators.TweenWithPriority`: likewise for `Duration` overflow.
- `RemoveTargetsFromAllTweensOfType::new` only fills in the phantom type marker. Here the datatype's constructor, with its tween-type field, stands for it.
