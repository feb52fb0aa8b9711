/** Timeline combinators: each one spawns a tween over the span that starts at the
    cursor and lasts its duration, then moves the cursor to the span's end. */
module CustomCombinators {
  import opened Ecs

  /** A `Duration`, in nanoseconds. */
  type Duration = nat

  /** A `TimeSpan` built from `start..end`. */
  datatype TimeSpan = TimeSpan(start: Duration, end: Duration)

  /** The component that tells the two combinators apart: a `Name` or a priority. */
  datatype Tag = Named(name: string) | WithPriority(priority: u32)

  /** The bundle a combinator spawns; `I` and `T` are the interpolation and tween bundles. */
  datatype SpawnedTween<I, T> = SpawnedTween(span: TimeSpan, interpolation: I, tween: T, tag: Tag)

  /** Consecutive spans follow each other without gap or overlap, from `origin` to `cursor`. */
  ghost predicate Contiguous<I, T>(spawned: seq<SpawnedTween<I, T>>, origin: Duration, cursor: Duration) {
    && (spawned == [] ==> cursor == origin)
    && (spawned != [] ==> spawned[0].span.start == origin && spawned[|spawned| - 1].span.end == cursor)
    && (forall k :: 0 <= k < |spawned| ==> spawned[k].span.start <= spawned[k].span.end)
    && (forall k :: 0 <= k < |spawned| - 1 ==> spawned[k].span.end == spawned[k + 1].span.start)
  }

  /** `AnimationCommands`: what has been spawned under the animation so far. */
  class AnimationCommands<I, T> {
    var spawned: seq<SpawnedTween<I, T>>

    constructor ()
      ensures spawned == []
    {
      spawned := [];
    }

    method Spawn(bundle: SpawnedTween<I, T>)
      modifies this
      ensures spawned == old(spawned) + [bundle]
    {
      spawned := spawned + [bundle];
    }
  }

  /** `named_tween`: the closure applied to the commands `a` and the cursor `pos`; the
      cursor's new value is returned. */
  method NamedTween<I, T>(duration: Duration, interpolation: I, tween: T, name: string,
                          a: AnimationCommands<I, T>, pos: Duration) returns (newPos: Duration)
    modifies a
    ensures a.spawned == old(a.spawned) + [SpawnedTween(TimeSpan(pos, pos + duration), interpolation, tween, Named(name))]
    ensures newPos == pos + duration && pos <= newPos
    ensures forall origin :: Contiguous(old(a.spawned), origin, pos) ==> Contiguous(a.spawned, origin, newPos)
  {
    var start := pos;
    var end := start + duration;
    a.Spawn(SpawnedTween(TimeSpan(start, end), interpolation, tween, Named(name)));
    newPos := end;
  }

  /** `tween_with_priority`, likewise. */
  method TweenWithPriority<I, T>(duration: Duration, interpolation: I, tween: T, priority: u32,
                                 a: AnimationCommands<I, T>, pos: Duration) returns (newPos: Duration)
    modifies a
    ensures a.spawned == old(a.spawned) + [SpawnedTween(TimeSpan(pos, pos + duration), interpolation, tween, WithPriority(priority))]
    ensures newPos == pos + duration && pos <= newPos
    ensures forall origin :: Contiguous(old(a.spawned), origin, pos) ==> Contiguous(a.spawned, origin, newPos)
  {
    var start := pos;
    var end := start + duration;
    a.Spawn(SpawnedTween(TimeSpan(start, end), interpolation, tween, WithPriority(priority)));
    newPos := end;
  }
}
