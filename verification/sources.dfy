/**
 * The push sources: an event source and a change source are streams
 * without inputs and without an operator, whose values are pushed by the
 * program.
 */
module Sources {
  import opened Wrappers
  import opened Optionals
  import opened ListHelper
  import opened Activation

  /** A new source. Its subscription to its inputs never emits anything and cancelling it does nothing. */
  function NewSource<O>(): (s: Stream<O>)
    ensures Inv(s) && !s.hasOperator && !Active(s) && Elements(s.observers) == []
  {
    NewStream(false)
  }

  /** `EventSource.push`: event streams carry no nulls, so null is rejected; any other value reaches every observer. */
  function PushEvent<O, V>(s: Stream<O>, value: Nullable<V>): (r: Result<seq<Delivery<O, V>>>)
    ensures r.Err? <==> value.Null?
    ensures r.Err? ==> r.error == RequireNonNull
    ensures r.Ok? ==> |r.value| == Size(s.observers)
    ensures r.Ok? ==> forall i :: 0 <= i < |r.value| ==> r.value[i] == Delivery(Elements(s.observers)[i], value)
  {
    if value.Null? then Err(RequireNonNull) else Ok(Emit(s, value))
  }

  /** `ChangeSource.push`: every value, null included, reaches every observer, in registration order. */
  lemma ChangePushAcceptsNull<O, V>(s: Stream<O>)
    ensures Emit<O, V>(s, Null) == seq(Size(s.observers), i requires 0 <= i < Size(s.observers) => Delivery(Elements(s.observers)[i], Null))
  {
  }

  /** Subscribing to a source delivers nothing: it has no current value and its inputs never emit. */
  lemma SubscribingDeliversNothing<O, V>(s: Stream<O>, o: O, current: OptionalValue<V>)
    requires Inv(s) && !s.hasOperator
    ensures AddObserver(s, Val(o), current, []).Ok?
    ensures AddObserver(s, Val(o), current, []).value.1 == []
  {
  }

  /**
   * A pushed value reaches an observer exactly while it is subscribed: one
   * observer subscribed to a new source receives the value once, and after
   * it unsubscribes a push reaches nobody and the source is idle again.
   */
  lemma PushReachesSubscriberOnly<O, V>(o: O, v: V)
    ensures var s1 := AddObserver<O, V>(NewSource<O>(), Val(o), Empty, []).value.0;
            && PushEvent(s1, Val(v)) == Ok([Delivery(o, Val(v))])
            && var s2 := RemoveObserver(s1, Val(o)).value;
               && PushEvent(s2, Val(v)) == Ok([])
               && !Active(s2) && s2.cancels == 1
  {
    var s0 := NewSource<O>();
    var s1 := AddObserver<O, V>(s0, Val(o), Empty, []).value.0;
    assert Elements(s1.observers) == [o];
    var pushed := Emit<O, V>(s1, Val(v));
    assert |pushed| == 1 && pushed[0] == Delivery(o, Val(v));
    assert pushed == [Delivery(o, Val(v))];
    var s2 := RemoveObserver(s1, Val(o)).value;
    assert Elements(s2.observers) == RemoveFirst([o], o) == [];
  }
}
