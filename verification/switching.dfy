/**
 * The switching handler of flatMap: each value of the source names an inner
 * stream (or none); the handler cancels its subscription to the inner
 * stream it tracked, then subscribes to the new one, whose values it then
 * emits. conditionOn is built from it, over a boolean condition.
 */
module Switching {
  import opened Wrappers
  import opened Optionals
  import opened Pipeline

  /** An inner stream as the handler sees it when subscribing: its kind and the current value it hands a new subscriber. */
  datatype Inner<T> = Inner(kind: Kind, current: OptionalValue<T>)

  /**
   * The handler's state: the inner stream whose subscription it holds (Null
   * for the empty subscription) and whether it observes its source.
   */
  datatype Tracker = Tracker(tracked: Nullable<nat>, observingSource: bool)

  /** What the handler does, in order. */
  datatype Action<T> = Cancelled(inner: nat) | Subscribed(inner: nat) | Emitted(value: Nullable<T>)

  /** What reaches the handler. */
  datatype Stimulus<S, T> =
    | Activate(sourceCurrent: OptionalValue<S>)  // the stream gains an observer; a value source hands over its current value
    | Deactivate                                 // the last observer leaves
    | SourceEmits(value: Nullable<S>)
    | InnerEmits(inner: nat, innerValue: Nullable<T>)

  const Untracked := Tracker(Null, false)

  /** The inner stream a source value selects, if it names one that exists. */
  function Selected<S, T>(select: Nullable<S> -> Nullable<nat>, inners: seq<Inner<T>>, v: Nullable<S>): (k: Nullable<nat>)
    ensures k.Val? ==> k.value < |inners|
    ensures k.Val? <==> select(v).Val? && select(v).value < |inners|
  {
    if select(v).Val? && select(v).value < |inners| then select(v) else Null
  }

  /** The values a new subscription to an inner stream receives at once: a value stream's current value. */
  function Handed<T>(inner: Inner<T>): (out: seq<Nullable<T>>)
    ensures |out| <= 1
    ensures out != [] <==> inner.kind == ValueKind && IsPresent(inner.current)
    ensures out != [] ==> Get(inner.current) == Ok(out[0])
  {
    if inner.kind == ValueKind then Delivered(inner.current) else []
  }

  function EmittedAll<T>(values: seq<Nullable<T>>): (r: seq<Action<T>>)
    ensures |r| == |values| && forall i :: 0 <= i < |r| ==> r[i] == Emitted(values[i])
  {
    seq(|values|, i requires 0 <= i < |values| => Emitted(values[i]))
  }

  /**
   * A source value: the tracked subscription is cancelled first, then the
   * selected inner stream is subscribed, and a value stream emits its current
   * value through the handler at once. Null, or a stream that does not
   * exist, leaves nothing tracked.
   */
  function Switch<S, T>(t: Tracker, v: Nullable<S>, select: Nullable<S> -> Nullable<nat>, inners: seq<Inner<T>>)
    : (r: (Tracker, seq<Action<T>>))
    ensures r.0.tracked == Selected(select, inners, v) && r.0.observingSource == t.observingSource
    ensures t.tracked.Val? ==> |r.1| >= 1 && r.1[0] == Cancelled(t.tracked.value)
    ensures t.tracked.Null? ==> forall i :: 0 <= i < |r.1| ==> !r.1[i].Cancelled?
    ensures var k := Selected(select, inners, v);
            var rest := if t.tracked.Val? then r.1[1..] else r.1;
            |r.1| >= (if t.tracked.Val? then 1 else 0)
            && (k.Null? ==> rest == [])
            && (k.Val? ==> rest == [Subscribed(k.value)] + EmittedAll(Handed(inners[k.value])))
  {
    var k := Selected(select, inners, v);
    var cancel := if t.tracked.Val? then [Cancelled(t.tracked.value)] else [];
    var subscribe := if k.Val? then [Subscribed(k.value)] + EmittedAll(Handed(inners[k.value])) else [];
    assert (cancel + subscribe)[|cancel|..] == subscribe;
    (t.(tracked := k), cancel + subscribe)
  }

  /**
   * One stimulus. Activating subscribes to the source, and a source that
   * hands over a current value makes the handler switch at once.
   * Deactivating cancels only the source subscription: the tracked inner
   * subscription is kept. An inner stream's value is emitted exactly when
   * that inner stream is the one tracked.
   */
  function Step<S, T>(t: Tracker, s: Stimulus<S, T>, select: Nullable<S> -> Nullable<nat>, inners: seq<Inner<T>>)
    : (r: (Tracker, seq<Action<T>>))
  {
    match s
    case Activate(c) =>
      var on := t.(observingSource := true);
      if c.Present? then Switch(on, c.content, select, inners) else (on, [])
    case Deactivate => (t.(observingSource := false), [])
    case SourceEmits(v) => if t.observingSource then Switch(t, v, select, inners) else (t, [])
    case InnerEmits(k, x) => (t, if t.tracked == Val(k) then [Emitted(x)] else [])
  }

  /** The values emitted by a series of actions. */
  function Emissions<T>(actions: seq<Action<T>>): seq<Nullable<T>>
    decreases |actions|
  {
    if actions == [] then [] else (if actions[0].Emitted? then [actions[0].value] else []) + Emissions(actions[1..])
  }

  lemma {:induction false} EmissionsAppend<T>(a: seq<Action<T>>, b: seq<Action<T>>)
    ensures Emissions(a + b) == Emissions(a) + Emissions(b)
    decreases |a|
  {
    if a == [] {
      assert a + b == b;
    } else {
      var head := if a[0].Emitted? then [a[0].value] else [];
      assert (a + b)[0] == a[0] && (a + b)[1..] == a[1..] + b;
      EmissionsAppend(a[1..], b);
      assert Emissions(a + b) == head + (Emissions(a[1..]) + Emissions(b));
    }
  }

  lemma {:induction false} EmissionsOfEmittedAll<T>(values: seq<Nullable<T>>)
    ensures Emissions(EmittedAll(values)) == values
    decreases |values|
  {
    if values != [] {
      assert EmittedAll(values)[1..] == EmittedAll(values[1..]);
      EmissionsOfEmittedAll(values[1..]);
    }
  }

  /**
   * Whatever was tracked before, a source value makes the handler emit
   * exactly what the newly selected inner stream hands a new subscriber, and
   * nothing when no stream is selected.
   */
  lemma SwitchEmissions<S, T>(t: Tracker, v: Nullable<S>, select: Nullable<S> -> Nullable<nat>, inners: seq<Inner<T>>)
    requires t.observingSource
    ensures var k := Selected(select, inners, v);
            var after := Step(t, SourceEmits(v), select, inners);
            && after.0 == Tracker(k, true)
            && Emissions(after.1) == (if k.Val? then Handed(inners[k.value]) else [])
  {
    var k := Selected(select, inners, v);
    var r := Step(t, SourceEmits(v), select, inners).1;
    var rest := if t.tracked.Val? then r[1..] else r;
    if t.tracked.Val? {
      assert r == [Cancelled(t.tracked.value)] + rest;
      EmissionsAppend<T>([Cancelled(t.tracked.value)], rest);
      assert Emissions<T>([Cancelled(t.tracked.value)]) == [];
    }
    assert Emissions(r) == Emissions(rest);
    if k.Val? {
      EmissionsAppend([Subscribed(k.value)], EmittedAll(Handed(inners[k.value])));
      assert Emissions<T>([Subscribed(k.value)]) == [];
      EmissionsOfEmittedAll(Handed(inners[k.value]));
    }
  }

  /** After switching away from inner stream `a`, its values no longer get through. */
  lemma OldInnerSilenced<S, T>(t: Tracker, v: Nullable<S>, a: nat, x: Nullable<T>, select: Nullable<S> -> Nullable<nat>, inners: seq<Inner<T>>)
    requires t.observingSource
    requires Selected(select, inners, v) != Val(a)
    ensures var after := Step(t, SourceEmits(v), select, inners).0;
            Step(after, InnerEmits(a, x), select, inners).1 == []
  {
  }

  /** A switch to a change or event stream emits nothing; only that stream's later values get through. */
  lemma ChangeSwitchEmitsNothing<S, T>(t: Tracker, v: Nullable<S>, select: Nullable<S> -> Nullable<nat>, inners: seq<Inner<T>>)
    requires t.observingSource
    requires forall i :: 0 <= i < |inners| ==> inners[i].kind != ValueKind
    ensures Emissions(Step(t, SourceEmits(v), select, inners).1) == []
  {
    SwitchEmissions(t, v, select, inners);
  }


  /**
   * A switch to a value stream, away from whatever was tracked before (that
   * stream itself included), emits the new stream's current value at once.
   */
  lemma ValueSwitchEmitsCurrent<S, T>(t: Tracker, v: Nullable<S>, k: nat, select: Nullable<S> -> Nullable<nat>, inners: seq<Inner<T>>)
    requires t.observingSource
    requires Selected(select, inners, v) == Val(k)
    requires inners[k].kind == ValueKind
    ensures var after := Step(t, SourceEmits(v), select, inners);
            after.0.tracked == Val(k) && Emissions(after.1) == Delivered(inners[k].current)
  {
    SwitchEmissions(t, v, select, inners);
  }

  /**
   * A source value that selects the inner stream already tracked still
   * cancels and resubscribes it, so a value stream re-emits its current value.
   */
  lemma ReselectionReemits<S, T>(k: nat, v: Nullable<S>, x: Nullable<T>, select: Nullable<S> -> Nullable<nat>, inners: seq<Inner<T>>)
    requires Selected(select, inners, v) == Val(k)
    requires inners[k] == Inner(ValueKind, Present(x))
    ensures Step(Tracker(Val(k), true), SourceEmits(v), select, inners) == (Tracker(Val(k), true), [Cancelled(k), Subscribed(k), Emitted(x)])
  {
    assert Handed(inners[k]) == [x];
    assert EmittedAll([x]) == [Emitted(x)];
    var r := Step(Tracker(Val(k), true), SourceEmits(v), select, inners);
    assert r.1 == [Cancelled(k)] + r.1[1..];
    assert r.1[1..] == [Subscribed(k)] + [Emitted(x)];
    assert r.1 == [Cancelled(k), Subscribed(k), Emitted(x)];
    assert r.0 == Tracker(Val(k), true);
  }

  /** A source value that selects no stream leaves the handler silent until the source emits again. */
  lemma NullInnerIsSilent<S, T>(t: Tracker, v: Nullable<S>, k: nat, x: Nullable<T>, select: Nullable<S> -> Nullable<nat>, inners: seq<Inner<T>>)
    requires t.observingSource
    requires select(v).Null?
    ensures var after := Step(t, SourceEmits(v), select, inners);
            after.0.tracked.Null? && Emissions(after.1) == [] && Step(after.0, InnerEmits(k, x), select, inners).1 == []
  {
    var r := Step(t, SourceEmits(v), select, inners).1;
    if t.tracked.Val? {
      assert r == [Cancelled(t.tracked.value)];
    }
  }

  /**
   * Deactivation keeps the tracked inner subscription: the inner stream's
   * values still reach the handler while the stream has no observers, and
   * activation from a change or event source (which hands over nothing)
   * resumes with the same inner stream.
   */
  lemma InnerSurvivesDeactivation<S, T>(t: Tracker, k: nat, x: Nullable<T>, select: Nullable<S> -> Nullable<nat>, inners: seq<Inner<T>>)
    requires t.tracked == Val(k)
    ensures var off := Step(t, Deactivate, select, inners).0;
            && off.tracked == Val(k) && !off.observingSource
            && Step(off, InnerEmits(k, x), select, inners).1 == [Emitted(x)]
            && Step(off, Activate(Empty), select, inners).0.tracked == Val(k)
  {
  }

  /** Reactivation from a value source cancels the stale inner subscription before subscribing anew. */
  lemma ReactivationCancelsStale<S, T>(t: Tracker, k: nat, c: Nullable<S>, select: Nullable<S> -> Nullable<nat>, inners: seq<Inner<T>>)
    requires t.tracked == Val(k) && !t.observingSource
    ensures var r := Step(t, Activate(Present(c)), select, inners);
            r.1 != [] && r.1[0] == Cancelled(k) && r.0.observingSource
  {
  }

  /** An inactive handler does not see source values. */
  lemma InactiveIgnoresSource<S, T>(t: Tracker, v: Nullable<S>, select: Nullable<S> -> Nullable<nat>, inners: seq<Inner<T>>)
    requires !t.observingSource
    ensures Step(t, SourceEmits(v), select, inners) == (t, [])
  {
  }

  /**
   * conditionOn over a stream of the given kind: a true condition selects the
   * stream itself (inner 0); false selects an empty stream (inner 1) for
   * value and event streams and nothing for change streams; a null condition
   * never reaches the mapper and selects an empty stream for value and change
   * streams and nothing for event streams.
   */
  function ConditionSelect(kind: Kind): (select: Nullable<bool> -> Nullable<nat>)
    ensures select(Val(true)) == Val(0)
    ensures select(Val(false)) != Val(0) && select(Null) != Val(0)
  {
    (c: Nullable<bool>) =>
      if c == Val(true) then Val(0)
      else if c.Val? then (if kind == ChangeKind then Null else Val(1))
      else (if kind == EventKind then Null else Val(1))
  }

  /** The two inner streams of conditionOn: the stream itself, and an empty stream of its kind. */
  function ConditionInners<T>(kind: Kind, current: OptionalValue<T>): (inners: seq<Inner<T>>)
    ensures |inners| == 2 && inners[0] == Inner(kind, if kind == ValueKind then current else Empty)
    ensures Handed(inners[1]) == []
  {
    [Inner(kind, if kind == ValueKind then current else Empty), Inner(kind, Empty)]
  }

  /** While the condition is false or null, nothing of the stream gets through. */
  lemma ConditionFalseBlocks<T>(t: Tracker, kind: Kind, current: OptionalValue<T>, c: Nullable<bool>, x: Nullable<T>)
    requires t.observingSource && c != Val(true)
    ensures var after := Step(t, SourceEmits(c), ConditionSelect(kind), ConditionInners(kind, current));
            && Emissions(after.1) == []
            && after.0.tracked != Val(0)
            && Step(after.0, InnerEmits(0, x), ConditionSelect(kind), ConditionInners(kind, current)).1 == []
  {
    SwitchEmissions(t, c, ConditionSelect(kind), ConditionInners(kind, current));
  }


  /**
   * When the condition becomes true the stream itself is tracked, whatever
   * was tracked before (the empty stand-in after false or null); a value
   * stream then emits its current value at once, a change or event stream
   * emits nothing.
   */
  lemma ConditionTrueConnects<T>(t: Tracker, kind: Kind, current: OptionalValue<T>)
    requires t.observingSource
    ensures var after := Step(t, SourceEmits(Val(true)), ConditionSelect(kind), ConditionInners(kind, current));
            && after.0.tracked == Val(0)
            && Emissions(after.1) == (if kind == ValueKind then Delivered(current) else [])
  {
    SwitchEmissions(t, Val(true), ConditionSelect(kind), ConditionInners(kind, current));
  }
}
