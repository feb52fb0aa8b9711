/** `read_single_field_variant!`: keep, in order, the payloads of the events of one
    enum variant. The variant is given as its selector: `Some(payload)` on an event
    of that variant, `None` on any other. */
module EventReaderMacros {
  import opened Ecs

  function ReadSingleFieldVariant<E, V>(events: seq<E>, variant: E -> Option<V>): (payloads: seq<V>)
    ensures |payloads| <= |events|
    ensures forall v :: v in payloads ==> exists e :: e in events && variant(e) == Some(v)
    ensures forall e :: e in events && variant(e).Some? ==> variant(e).value in payloads
  {
    if events == [] then []
    else
      var rest := ReadSingleFieldVariant(events[1..], variant);
      assert forall e :: e in events[1..] ==> e in events;
      match variant(events[0])
      case Some(v) => [v] + rest
      case None => rest
  }

  /** The indices of the events of the variant. */
  ghost function MatchingIndices<E, V>(events: seq<E>, variant: E -> Option<V>): set<int> {
    set i | 0 <= i < |events| && variant(events[i]).Some?
  }

  /** Reading a concatenation reads the parts one after the other: the output keeps
      the input's order. */
  lemma {:induction false} ReadAppend<E, V>(a: seq<E>, b: seq<E>, variant: E -> Option<V>)
    ensures ReadSingleFieldVariant(a + b, variant)
         == ReadSingleFieldVariant(a, variant) + ReadSingleFieldVariant(b, variant)
  {
    if a == [] {
      assert a + b == b;
    } else {
      assert (a + b)[0] == a[0] && (a + b)[1..] == a[1..] + b;
      ReadAppend(a[1..], b, variant);
    }
  }

  /** One event yields its payload if it is of the variant and nothing otherwise. */
  lemma ReadOne<E, V>(e: E, variant: E -> Option<V>)
    ensures ReadSingleFieldVariant([e], variant) == (if variant(e).Some? then [variant(e).value] else [])
  {
    assert [e][1..] == [];
  }

  /** The output has one payload per event of the variant. */
  lemma {:induction false} ReadLength<E, V>(events: seq<E>, variant: E -> Option<V>)
    ensures |ReadSingleFieldVariant(events, variant)| == |MatchingIndices(events, variant)|
  {
    if events == [] {
      assert MatchingIndices(events, variant) == {};
    } else {
      var n := |events| - 1;
      var init := events[..n];
      assert events == init + [events[n]];
      ReadAppend(init, [events[n]], variant);
      ReadOne(events[n], variant);
      ReadLength(init, variant);
      if variant(events[n]).Some? {
        assert MatchingIndices(events, variant) == MatchingIndices(init, variant) + {n};
      } else {
        assert MatchingIndices(events, variant) == MatchingIndices(init, variant);
      }
    }
  }

  /** Events of other variants are dropped: a stream without the variant reads as nothing. */
  lemma {:induction false} ReadNoneOfVariant<E, V>(events: seq<E>, variant: E -> Option<V>)
    requires forall e :: e in events ==> variant(e).None?
    ensures ReadSingleFieldVariant(events, variant) == []
  {
    if events != [] {
      ReadNoneOfVariant(events[1..], variant);
    }
  }
}
