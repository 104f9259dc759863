/**
 * The life cycle every stream shares: observers are added and removed, the
 * stream subscribes to its inputs when it gains an observer while
 * unsubscribed and cancels that subscription when the last observer leaves,
 * and a stream with an operator hands a new observer its current value.
 */
module Activation {
  import opened Wrappers
  import opened Optionals
  import opened ListHelper
  import opened Emission

  /** One call of an observer with a value. */
  datatype Delivery<O, V> = Delivery(to: O, value: Nullable<V>)

  /**
   * The state of a stream: its observer registry, the subscription on its
   * inputs (the serial number of that subscription, if any), whether it has
   * an operator (value streams do; change, event and invalidation streams do
   * not), and how many subscriptions it has made and cancelled.
   */
  datatype Stream<O> = Stream(observers: Helper<O>, input: Option<nat>, hasOperator: bool, subscribes: nat, cancels: nat)

  /** A fresh stream: no observers and no subscription. */
  function NewStream<O>(hasOperator: bool): (s: Stream<O>)
    ensures Inv(s) && !Active(s) && Elements(s.observers) == []
  {
    Stream(Absent, None, hasOperator, 0, 0)
  }

  /** The stream observes its inputs. */
  predicate Active<O>(s: Stream<O>) {
    s.input.Some?
  }

  /**
   * The stream is subscribed exactly while it has observers, every
   * subscription but the current one has been cancelled, and the current one
   * is the latest made.
   */
  predicate Inv<O>(s: Stream<O>) {
    && Valid(s.observers)
    && (Active(s) <==> Size(s.observers) > 0)
    && s.subscribes == s.cancels + (if Active(s) then 1 else 0)
    && (Active(s) ==> s.input.value + 1 == s.subscribes)
  }

  /** Every observer in `to`, in order, called with each value of `values` in turn. */
  function Broadcast<O, V>(values: seq<Nullable<V>>, to: seq<O>): seq<Delivery<O, V>>
    decreases |values|
  {
    if values == [] then []
    else seq(|to|, j requires 0 <= j < |to| => Delivery(to[j], values[0])) + Broadcast(values[1..], to)
  }

  /** Values broadcast to no observers reach nobody. */
  lemma {:induction false} BroadcastToNobody<O, V>(values: seq<Nullable<V>>)
    ensures Broadcast<O, V>(values, []) == []
    decreases |values|
  {
    if values != [] {
      BroadcastToNobody<O, V>(values[1..]);
    }
  }

  /**
   * `addObserver`. A null observer is rejected before anything happens.
   * Otherwise a stream without a subscription subscribes first, and the
   * values its inputs emit during that call (`echo`) reach the observers
   * already registered; then a stream with an operator hands the new observer
   * its current value, if any; and only then is the observer registered.
   */
  function AddObserver<O(==), V>(s: Stream<O>, observer: Nullable<O>, current: OptionalValue<V>, echo: seq<Nullable<V>>)
    : (r: Result<(Stream<O>, seq<Delivery<O, V>>)>)
    requires Valid(s.observers)
    ensures observer.Null? <==> r.Err?
    ensures r.Err? ==> r.error == NullPointer(Some("observer cannot be null"))
    ensures r.Ok? ==> Elements(r.value.0.observers) == Elements(s.observers) + [observer.value]
    ensures r.Ok? ==> Valid(r.value.0.observers) && Active(r.value.0) && r.value.0.hasOperator == s.hasOperator
    ensures r.Ok? ==> r.value.0.subscribes == s.subscribes + (if Active(s) then 0 else 1) && r.value.0.cancels == s.cancels
    ensures r.Ok? && Active(s) ==> r.value.0.input == s.input
    ensures r.Ok? ==>
              r.value.1 == (if Active(s) then [] else Broadcast(echo, Elements(s.observers)))
                           + (if s.hasOperator && IsPresent(current) then [Delivery(observer.value, current.content)] else [])
  {
    if observer.Null? then Err(NullPointer(Some("observer cannot be null")))
    else
      var subscribed := if s.input.Some? then s else s.(input := Some(s.subscribes), subscribes := s.subscribes + 1);
      var activation := if s.input.Some? then [] else Broadcast(echo, Elements(s.observers));
      var initial := if s.hasOperator then IfPresent(current, Val(observer.value)).value else [];
      var added := Add(s.observers, observer.value).result;
      Ok((subscribed.(observers := added), activation + seq(|initial|, i requires 0 <= i < |initial| => Delivery(observer.value, initial[i]))))
  }

  /**
   * `removeObserver`. A null observer is rejected. Otherwise one registration
   * of the observer is removed (none if it was not registered), and a
   * subscribed stream left without observers cancels its subscription.
   */
  function RemoveObserver<O(==)>(s: Stream<O>, observer: Nullable<O>): (r: Result<Stream<O>>)
    requires Valid(s.observers)
    ensures observer.Null? <==> r.Err?
    ensures r.Err? ==> r.error == RequireNonNull
    ensures r.Ok? ==> Valid(r.value.observers) && Elements(r.value.observers) == RemoveFirst(Elements(s.observers), observer.value)
    ensures r.Ok? ==> r.value.subscribes == s.subscribes && r.value.hasOperator == s.hasOperator
    ensures r.Ok? ==> (Active(s) && Elements(r.value.observers) == [] <==> r.value.cancels == s.cancels + 1)
    ensures r.Ok? ==> r.value.cancels <= s.cancels + 1
    ensures r.Ok? ==> (Active(r.value) <==> Active(s) && Elements(r.value.observers) != [])
    ensures r.Ok? && Active(r.value) ==> r.value.input == s.input
  {
    if observer.Null? then Err(RequireNonNull)
    else
      var removed := Remove(s.observers, observer.value).result;
      if IsEmpty(removed) && s.input.Some? then Ok(s.(observers := removed, input := None, cancels := s.cancels + 1))
      else Ok(s.(observers := removed))
  }

  /** `emit` without reentrant changes: every registration receives the value once, in registration order. */
  function Emit<O, V>(s: Stream<O>, value: Nullable<V>): (r: seq<Delivery<O, V>>)
    ensures |r| == Size(s.observers)
    ensures forall i :: 0 <= i < |r| ==> r[i] == Delivery(Elements(s.observers)[i], value)
  {
    var es := Elements(s.observers);
    seq(|es|, i requires 0 <= i < |es| => Delivery(es[i], value))
  }

  /**
   * `emit` as the iterator loop runs it, with observers that change the
   * registry while being called (`reactions`) and may throw (`throwsAt`): the
   * observers reached receive exactly what `Emit` describes, all of it when
   * nobody throws and the part up to the throwing observer otherwise, and the
   * registry afterwards reflects the changes of every observer reached.
   */
  method EmitWhileChanging<O(==), V>(s: Stream<O>, value: Nullable<V>, reactions: O -> seq<Op<O>>, throwsAt: Option<nat>)
    returns (delivered: seq<Delivery<O, V>>, threw: bool, registry: Helper<O>)
    requires Valid(s.observers)
    ensures threw <==> throwsAt.Some? && throwsAt.value < Size(s.observers)
    ensures !threw ==> delivered == Emit(s, value)
    ensures threw ==> delivered == Emit(s, value)[..throwsAt.value + 1]
    ensures |delivered| <= Size(s.observers)
    ensures Valid(registry)
    ensures Elements(registry) == ApplyAll(Elements(s.observers), ReactionsOf(reactions, Elements(s.observers)[..|delivered|]))
  {
    var called, traversed;
    called, threw, registry, traversed := Traverse(s.observers, reactions, throwsAt);
    delivered := seq(|called|, i requires 0 <= i < |called| => Delivery(called[i], value));
    assert Elements(s.observers)[..|delivered|] == called;
  }

  /** Adding an observer keeps the life-cycle invariant. */
  lemma AddObserverKeepsInv<O, V>(s: Stream<O>, observer: O, current: OptionalValue<V>, echo: seq<Nullable<V>>)
    requires Inv(s)
    ensures Inv(AddObserver(s, Val(observer), current, echo).value.0)
  {
  }

  /** Removing an observer keeps the life-cycle invariant, whether or not it was registered. */
  lemma RemoveObserverKeepsInv<O>(s: Stream<O>, observer: O)
    requires Inv(s)
    ensures Inv(RemoveObserver(s, Val(observer)).value)
  {
    var r := RemoveObserver(s, Val(observer)).value;
    assert Size(r.observers) == 0 <==> Elements(r.observers) == [];
  }

  /**
   * Under the invariant, a new observer receives exactly the current value of
   * a stream with an operator and nothing else: values emitted while the
   * stream subscribes reach nobody, as nobody is registered yet.
   */
  lemma NewObserverSeesOnlyCurrentValue<O, V>(s: Stream<O>, observer: O, current: OptionalValue<V>, echo: seq<Nullable<V>>)
    requires Inv(s)
    ensures AddObserver(s, Val(observer), current, echo).value.1 ==
              if s.hasOperator && IsPresent(current) then [Delivery(observer, current.content)] else []
  {
    if !Active(s) {
      assert Elements(s.observers) == [];
      BroadcastToNobody<O, V>(echo);
    }
  }

  /** Only the first observer makes the stream subscribe; later ones share the subscription. */
  lemma SubscribesOnlyWhenInactive<O, V>(s: Stream<O>, a: O, b: O, current: OptionalValue<V>)
    requires Inv(s) && !Active(s)
    ensures var s1 := AddObserver(s, Val(a), current, []).value.0;
            var s2 := AddObserver(s1, Val(b), current, []).value.0;
            s1.subscribes == s.subscribes + 1 && s2.subscribes == s1.subscribes && s2.input == s1.input
  {
  }

  /** Two registrations of the same observer on an idle stream: one subscription, two registrations. */
  lemma {:induction false} RegisteredTwice<O, V>(s: Stream<O>, o: O, current: OptionalValue<V>)
    requires Inv(s) && !Active(s)
    ensures var s2 := AddObserver(AddObserver(s, Val(o), current, []).value.0, Val(o), current, []).value.0;
            Inv(s2) && Elements(s2.observers) == [o, o] && s2.cancels == s.cancels
  {
    AddObserverKeepsInv(s, o, current, []);
    var s1 := AddObserver(s, Val(o), current, []).value.0;
    AddObserverKeepsInv(s1, o, current, []);
    assert Elements(s.observers) == [];
  }

  lemma RemovedTwice<O>(s2: Stream<O>, o: O)
    requires Inv(s2) && Elements(s2.observers) == [o, o]
    ensures var r1 := RemoveObserver(s2, Val(o)).value;
            && Active(r1)
            && !Active(RemoveObserver(r1, Val(o)).value)
            && RemoveObserver(r1, Val(o)).value.cancels == s2.cancels + 1
  {
    RemoveObserverKeepsInv(s2, o);
    var r1 := RemoveObserver(s2, Val(o)).value;
    assert Elements(r1.observers) == [o] by {
      assert RemoveFirst([o, o], o) == [o];
    }
    assert r1.cancels == s2.cancels;
    assert Elements(RemoveObserver(r1, Val(o)).value.observers) == [] by {
      assert RemoveFirst([o], o) == [];
    }
  }

  /**
   * The same observer added twice receives each value twice, stays
   * subscribed after one removal, and is unsubscribed after the second.
   */
  lemma AddedTwiceRemovedTwice<O, V>(s: Stream<O>, o: O, current: OptionalValue<V>, v: Nullable<V>)
    requires Inv(s) && !Active(s)
    ensures var s2 := AddObserver(AddObserver(s, Val(o), current, []).value.0, Val(o), current, []).value.0;
            && Emit(s2, v) == [Delivery(o, v), Delivery(o, v)]
            && Active(RemoveObserver(s2, Val(o)).value)
            && !Active(RemoveObserver(RemoveObserver(s2, Val(o)).value, Val(o)).value)
            && RemoveObserver(RemoveObserver(s2, Val(o)).value, Val(o)).value.cancels == s.cancels + 1
  {
    RegisteredTwice(s, o, current);
    var s2 := AddObserver(AddObserver(s, Val(o), current, []).value.0, Val(o), current, []).value.0;
    RemovedTwice(s2, o);
    var r := Emit(s2, v);
    assert |r| == 2 && r[0] == Delivery(o, v) && r[1] == Delivery(o, v);
  }

  /** Removing an observer that is not registered changes nothing. */
  lemma RemoveUnknownObserver<O>(s: Stream<O>, o: O)
    requires Inv(s)
    requires o !in Elements(s.observers)
    ensures RemoveObserver(s, Val(o)) == Ok(s)
  {
    if Active(s) {
      assert Elements(s.observers) != [];
    }
  }

  /** Subscribing then unsubscribing an inactive stream leaves it inactive with its subscription cancelled. */
  lemma SubscribeThenUnsubscribe<O, V>(s: Stream<O>, o: O, current: OptionalValue<V>)
    requires Inv(s) && !Active(s)
    ensures var r := RemoveObserver(AddObserver(s, Val(o), current, []).value.0, Val(o)).value;
            && Inv(r) && !Active(r) && Elements(r.observers) == []
            && r.subscribes == s.subscribes + 1 && r.cancels == s.cancels + 1
  {
    assert Elements(s.observers) == [];
    assert RemoveFirst([o], o) == [];
  }
}
