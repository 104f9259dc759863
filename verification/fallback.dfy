/**
 * `or` on value streams: the stream follows its source while the source
 * holds a non-null value, and a fallback stream while the source holds null.
 * It is built from flatMap, mapping every non-null source value to a
 * null-skipping copy of the source. Two versions are modelled side by side:
 * the handler as the code behaves, and the handler the documentation
 * describes.
 */
module Fallback {
  import opened Optionals

  /**
   * What the handler forwards. For the source, `staleFirst` records that the
   * null-skipping copy's observer sits in the source's observer list AHEAD of
   * the switching handler, so it still receives the source's next change.
   */
  datatype Tracking = Primary(staleFirst: bool) | Alternative | Nothing

  /**
   * What reaches the stream: the source emitted `value`, and a new subscriber
   * of the source would now receive `current`; or the fallback stream emitted.
   */
  datatype Change<V> =
    | SourceChanged(value: Nullable<V>, current: OptionalValue<V>)
    | FallbackChanged(fallbackValue: Nullable<V>)

  /** The state of one subscription to `or`, and the values delivered for each change so far. */
  datatype Run<V> = Run(tracking: Tracking, fallbackCurrent: OptionalValue<V>, outputs: seq<seq<Nullable<V>>>)

  /**
   * As the code behaves, a subscriber joins a stream whose source holds
   * `sourceCurrent`. Subscribing the handler makes it switch at once, and a
   * non-null value has the copy's observer registered on the source before
   * the handler itself is. The subscriber receives what a fresh copy (or the
   * fallback) holds.
   */
  function SubscribeAsWritten<V>(sourceCurrent: OptionalValue<V>, fallbackCurrent: OptionalValue<V>): (r: (Tracking, seq<Nullable<V>>))
    ensures r.0 == Primary(true) <==> sourceCurrent.Present? && sourceCurrent.content.Val?
    ensures r.0 == Alternative <==> sourceCurrent == Present(Null)
  {
    match sourceCurrent
    case Empty => (Nothing, [])
    case Present(Null) => (Alternative, Delivered(fallbackCurrent))
    case Present(Val(x)) => (Primary(true), [Val(x)])
  }

  /**
   * One change, as the code behaves. The source's observers run over a
   * snapshot of its list: a stale copy ahead of the handler still forwards a
   * non-null value. The handler then cancels what it tracked and subscribes a
   * fresh copy, which hands over the source's current value, not the value
   * emitted. A null switches to the fallback, which hands over its current
   * value. The fallback's values pass only while it is tracked.
   */
  function StepAsWritten<V>(t: Tracking, c: Change<V>, fallbackCurrent: OptionalValue<V>): (r: (Tracking, seq<Nullable<V>>))
    ensures c.SourceChanged? ==> r.0 != Primary(true) && (r.0 == Alternative <==> c.value.Null?)
    ensures c.FallbackChanged? ==> r.0 == t && (r.1 != [] <==> t == Alternative)
    ensures c.SourceChanged? && c.value.Val? ==> |r.1| == (if t == Primary(true) then 1 else 0) + (if IsPresent(c.current) then 1 else 0)
  {
    match c
    case FallbackChanged(a) => (t, if t == Alternative then [a] else [])
    case SourceChanged(Null, _) => (Alternative, Delivered(fallbackCurrent))
    case SourceChanged(Val(p), cur) => (Primary(false), (if t == Primary(true) then [Val(p)] else []) + Delivered(cur))
  }

  /** The documented behaviour when a subscriber joins: the source's value, or the fallback's for null. */
  function SubscribeCorrected<V>(sourceCurrent: OptionalValue<V>, fallbackCurrent: OptionalValue<V>): (r: (Tracking, seq<Nullable<V>>))
    ensures r.0 != Primary(true)
    ensures r.0 == Alternative <==> sourceCurrent == Present(Null)
  {
    match sourceCurrent
    case Empty => (Nothing, [])
    case Present(Null) => (Alternative, Delivered(fallbackCurrent))
    case Present(Val(x)) => (Primary(false), [Val(x)])
  }

  /** The documented behaviour for one change: exactly the value emitted, or the fallback's value for null. */
  function StepCorrected<V>(t: Tracking, c: Change<V>, fallbackCurrent: OptionalValue<V>): (r: (Tracking, seq<Nullable<V>>))
    requires t != Primary(true)
    ensures r.0 != Primary(true) && |r.1| <= 1
    ensures c.SourceChanged? ==> (r.0 == Alternative <==> c.value.Null?)
    ensures c.FallbackChanged? ==> r.0 == t
  {
    match c
    case FallbackChanged(a) => (t, if t == Alternative then [a] else [])
    case SourceChanged(Null, _) => (Alternative, Delivered(fallbackCurrent))
    case SourceChanged(Val(p), _) => (Primary(false), [Val(p)])
  }

  /** The fallback's current value after a change. */
  function NextFallback<V>(fallbackCurrent: OptionalValue<V>, c: Change<V>): OptionalValue<V>
  {
    if c.FallbackChanged? then Present(c.fallbackValue) else fallbackCurrent
  }

  /** A subscription that joined with the source at `start` and the fallback at `fallback0`, through the changes `cs`, as the code behaves. */
  function RunAsWritten<V>(start: OptionalValue<V>, fallback0: OptionalValue<V>, cs: seq<Change<V>>): (r: Run<V>)
    ensures |r.outputs| == |cs|
    decreases |cs|
  {
    if cs == [] then Run(SubscribeAsWritten(start, fallback0).0, fallback0, [])
    else
      var before := RunAsWritten(start, fallback0, cs[..|cs| - 1]);
      var step := StepAsWritten(before.tracking, cs[|cs| - 1], before.fallbackCurrent);
      Run(step.0, NextFallback(before.fallbackCurrent, cs[|cs| - 1]), before.outputs + [step.1])
  }

  /** The same subscription, as documented. */
  function RunCorrected<V>(start: OptionalValue<V>, fallback0: OptionalValue<V>, cs: seq<Change<V>>): (r: Run<V>)
    ensures |r.outputs| == |cs| && r.tracking != Primary(true)
    decreases |cs|
  {
    if cs == [] then Run(SubscribeCorrected(start, fallback0).0, fallback0, [])
    else
      var before := RunCorrected(start, fallback0, cs[..|cs| - 1]);
      var step := StepCorrected(before.tracking, cs[|cs| - 1], before.fallbackCurrent);
      Run(step.0, NextFallback(before.fallbackCurrent, cs[|cs| - 1]), before.outputs + [step.1])
  }

  /** A run extended by one change takes one more step. */
  lemma AsWrittenSnoc<V>(start: OptionalValue<V>, fallback0: OptionalValue<V>, cs: seq<Change<V>>, c: Change<V>)
    ensures var before := RunAsWritten(start, fallback0, cs);
            var step := StepAsWritten(before.tracking, c, before.fallbackCurrent);
            RunAsWritten(start, fallback0, cs + [c]) == Run(step.0, NextFallback(before.fallbackCurrent, c), before.outputs + [step.1])
  {
    assert (cs + [c])[..|cs|] == cs;
  }

  lemma CorrectedSnoc<V>(start: OptionalValue<V>, fallback0: OptionalValue<V>, cs: seq<Change<V>>, c: Change<V>)
    ensures var before := RunCorrected(start, fallback0, cs);
            var step := StepCorrected(before.tracking, c, before.fallbackCurrent);
            RunCorrected(start, fallback0, cs + [c]) == Run(step.0, NextFallback(before.fallbackCurrent, c), before.outputs + [step.1])
  {
    assert (cs + [c])[..|cs|] == cs;
  }

  /*
   * The documented behaviour, stated directly over the history of changes:
   * the stream emits the source's values unless the value was null, in which
   * case it emits the fallback's values until the source emits again.
   */

  /** Whether the latest source value (or the one at subscription) is null. */
  function FollowsFallback<V>(start: OptionalValue<V>, cs: seq<Change<V>>): bool
    decreases |cs|
  {
    if cs == [] then start == Present(Null)
    else if cs[|cs| - 1].SourceChanged? then cs[|cs| - 1].value.Null?
    else FollowsFallback(start, cs[..|cs| - 1])
  }

  /** The fallback's latest value. */
  function FallbackNow<V>(fallback0: OptionalValue<V>, cs: seq<Change<V>>): OptionalValue<V>
    decreases |cs|
  {
    if cs == [] then fallback0
    else if cs[|cs| - 1].FallbackChanged? then Present(cs[|cs| - 1].fallbackValue)
    else FallbackNow(fallback0, cs[..|cs| - 1])
  }

  /** What the subscriber should receive for change `i`. */
  function Intended<V>(start: OptionalValue<V>, fallback0: OptionalValue<V>, cs: seq<Change<V>>, i: nat): seq<Nullable<V>>
    requires i < |cs|
  {
    match cs[i]
    case SourceChanged(v, _) => if v.Val? then [v] else Delivered(FallbackNow(fallback0, cs[..i]))
    case FallbackChanged(a) => if FollowsFallback(start, cs[..i]) then [a] else []
  }

  /** The corrected handler delivers, for every change, exactly what the documentation promises. */
  lemma {:induction false} CorrectedIsIntended<V>(start: OptionalValue<V>, fallback0: OptionalValue<V>, cs: seq<Change<V>>)
    ensures RunCorrected(start, fallback0, cs).tracking == Alternative <==> FollowsFallback(start, cs)
    ensures RunCorrected(start, fallback0, cs).fallbackCurrent == FallbackNow(fallback0, cs)
    ensures forall i :: 0 <= i < |cs| ==> RunCorrected(start, fallback0, cs).outputs[i] == Intended(start, fallback0, cs, i)
    decreases |cs|
  {
    if cs != [] {
      var n := |cs| - 1;
      var prefix := cs[..n];
      CorrectedIsIntended(start, fallback0, prefix);
      var r := RunCorrected(start, fallback0, cs);
      var before := RunCorrected(start, fallback0, prefix);
      forall i | 0 <= i < |cs|
        ensures r.outputs[i] == Intended(start, fallback0, cs, i)
      {
        assert cs[..i] == prefix[..i] by { assert i <= n; }
        if i < n {
          assert r.outputs[i] == before.outputs[i];
          assert Intended(start, fallback0, cs, i) == Intended(start, fallback0, prefix, i);
        } else {
          assert cs[..i] == prefix;
        }
      }
    }
  }

  /** Every source change reports its own value as the source's current value, as it does for a property. */
  ghost predicate Faithful<V>(cs: seq<Change<V>>)
  {
    forall i :: 0 <= i < |cs| && cs[i].SourceChanged? ==> cs[i].current == Present(cs[i].value)
  }

  /** Whether the stale copy ahead of the handler has been used up: the source was not non-null at subscription, or has changed since. */
  function Settled<V>(start: OptionalValue<V>, cs: seq<Change<V>>): bool
    decreases |cs|
  {
    if cs == [] then !(start.Present? && start.content.Val?)
    else cs[|cs| - 1].SourceChanged? || Settled(start, cs[..|cs| - 1])
  }

  /**
   * On a source whose current value is the value it emitted, the code
   * behaves as documented once the first source change after subscribing
   * has passed; until then the two differ only in the stale copy.
   */
  lemma {:induction false} AsWrittenAgreesOnceSettled<V>(start: OptionalValue<V>, fallback0: OptionalValue<V>, cs: seq<Change<V>>)
    requires Faithful(cs)
    ensures var a := RunAsWritten(start, fallback0, cs);
            var c := RunCorrected(start, fallback0, cs);
            && a.fallbackCurrent == c.fallbackCurrent
            && (if Settled(start, cs) then a.tracking == c.tracking else a.tracking == Primary(true) && c.tracking == Primary(false))
            && forall i :: 0 <= i < |cs| && Settled(start, cs[..i]) ==> a.outputs[i] == c.outputs[i]
    decreases |cs|
  {
    if cs != [] {
      var n := |cs| - 1;
      var prefix := cs[..n];
      assert Faithful(prefix) by {
        forall i | 0 <= i < |prefix| && prefix[i].SourceChanged?
          ensures prefix[i].current == Present(prefix[i].value)
        {
          assert prefix[i] == cs[i];
        }
      }
      AsWrittenAgreesOnceSettled(start, fallback0, prefix);
      var a := RunAsWritten(start, fallback0, cs);
      var c := RunCorrected(start, fallback0, cs);
      var a0 := RunAsWritten(start, fallback0, prefix);
      var c0 := RunCorrected(start, fallback0, prefix);
      if Settled(start, prefix) {
        assert a0.tracking == c0.tracking;
        assert c0.tracking != Primary(true);
        if cs[n].SourceChanged? && cs[n].value.Val? {
          var v := cs[n].value;
          assert cs[n].current == Present(v) && Delivered(cs[n].current) == [v];
          assert StepAsWritten(a0.tracking, cs[n], a0.fallbackCurrent).1 == [] + [v] == [v];
        }
        assert StepAsWritten(a0.tracking, cs[n], a0.fallbackCurrent) == StepCorrected(c0.tracking, cs[n], c0.fallbackCurrent);
      }
      forall i | 0 <= i < |cs| && Settled(start, cs[..i])
        ensures a.outputs[i] == c.outputs[i]
      {
        if i < n {
          assert cs[..i] == prefix[..i];
        } else {
          assert cs[..i] == prefix;
        }
      }
    }
  }

  /** A subscriber receives the same first value either way. */
  lemma SubscriptionAgrees<V>(start: OptionalValue<V>, fallback0: OptionalValue<V>)
    ensures SubscribeAsWritten(start, fallback0).1 == SubscribeCorrected(start, fallback0).1
    ensures start.Present? && start.content.Val? ==> SubscribeAsWritten(start, fallback0).1 == Delivered(start)
  {
  }

  /**
   * The code delivers the first non-null change after subscribing to a
   * non-null source twice; the documentation promises it once.
   */
  lemma DoubleDelivery<V>(x: V, y: V, fallback0: OptionalValue<V>)
    ensures var cs := [SourceChanged(Val(y), Present(Val(y)))];
            && RunAsWritten(Present(Val(x)), fallback0, cs).outputs == [[Val(y), Val(y)]]
            && RunCorrected(Present(Val(x)), fallback0, cs).outputs == [[Val(y)]]
            && Intended(Present(Val(x)), fallback0, cs, 0) == [Val(y)]
  {
    var c := SourceChanged(Val(y), Present(Val(y)));
    assert [c] == [] + [c];
    assert Delivered(Present(Val(y))) == [Val(y)];
    AsWrittenSnoc(Present(Val(x)), fallback0, [], c);
    CorrectedSnoc(Present(Val(x)), fallback0, [], c);
    assert RunAsWritten(Present(Val(x)), fallback0, []).tracking == Primary(true);
    assert StepAsWritten(Primary(true), c, fallback0).1 == [Val(y)] + [Val(y)] == [Val(y), Val(y)];
    assert [c][..0] == [];
  }

  /**
   * Over a source whose current value is a constant default (a `withDefault`
   * stream), the code delivers the default for every later change instead
   * of the value emitted.
   */
  lemma DefaultSubstituted<V>(d: V, p: V, q: V, fallback0: OptionalValue<V>)
    ensures var cs := [SourceChanged(Val(p), Present(Val(d))), SourceChanged(Val(q), Present(Val(d)))];
            && RunAsWritten(Present(Val(d)), fallback0, cs).outputs == [[Val(p), Val(d)], [Val(d)]]
            && RunCorrected(Present(Val(d)), fallback0, cs).outputs == [[Val(p)], [Val(q)]]
  {
    var start := Present(Val(d));
    var c0 := SourceChanged(Val(p), Present(Val(d)));
    var c1 := SourceChanged(Val(q), Present(Val(d)));
    assert Delivered(Present(Val(d))) == [Val(d)];
    AsWrittenSnoc(start, fallback0, [], c0);
    AsWrittenSnoc(start, fallback0, [c0], c1);
    CorrectedSnoc(start, fallback0, [], c0);
    CorrectedSnoc(start, fallback0, [c0], c1);
    assert RunAsWritten(start, fallback0, []).tracking == Primary(true);
    assert StepAsWritten(Primary(true), c0, fallback0).1 == [Val(p)] + [Val(d)] == [Val(p), Val(d)];
    assert StepAsWritten(Primary(false), c1, fallback0).1 == [] + [Val(d)] == [Val(d)];
    assert [] + [c0] == [c0] && [c0] + [c1] == [c0, c1];
  }

  /**
   * The scenario of the library's own `or` test: the source starts null, the
   * fallback at "1"; the fallback changes to "2", the source to "A", the
   * fallback to "3", the source back to null. The code delivers "1" at
   * subscription and then "2", "A", nothing, "3".
   */
  lemma AsWrittenMatchesLibraryTest<V>(one: V, two: V, a: V, three: V)
    ensures SubscribeAsWritten(Present(Null), Present(Val(one))).1 == [Val(one)]
    ensures var cs := [FallbackChanged(Val(two)), SourceChanged(Val(a), Present(Val(a))), FallbackChanged(Val(three)), SourceChanged(Null, Present(Null))];
            RunAsWritten(Present(Null), Present(Val(one)), cs).outputs == [[Val(two)], [Val(a)], [], [Val(three)]]
  {
    var start: OptionalValue<V> := Present(Null);
    var fb := Present(Val(one));
    var c0 := FallbackChanged(Val(two));
    var c1 := SourceChanged(Val(a), Present(Val(a)));
    var c2 := FallbackChanged(Val(three));
    var c3 := SourceChanged(Null, Present(Null));
    assert Delivered(Present(Val(one))) == [Val(one)];
    assert Delivered(Present(Val(a))) == [Val(a)];
    assert Delivered(Present(Val(three))) == [Val(three)];
    AsWrittenSnoc(start, fb, [], c0);
    AsWrittenSnoc(start, fb, [c0], c1);
    AsWrittenSnoc(start, fb, [c0, c1], c2);
    AsWrittenSnoc(start, fb, [c0, c1, c2], c3);
    assert RunAsWritten(start, fb, []).tracking == Alternative;
    assert RunAsWritten(start, fb, []) == Run(Alternative, fb, []);
    assert StepAsWritten(Alternative, c1, Present(Val(two))).1 == [] + [Val(a)] == [Val(a)];
    assert [] + [c0] == [c0] && [c0] + [c1] == [c0, c1] && [c0, c1] + [c2] == [c0, c1, c2] && [c0, c1, c2] + [c3] == [c0, c1, c2, c3];
  }

}
