# eventstream core, modelled in Dafny

A model of the core of hs.jfx.eventstream, a Java library of reactive
streams over JavaFX observables. It covers the `eventstream-core` and
`eventstream-api` modules. A stream is one of four kinds:

- **value streams** hand every new subscriber their current value and then
  every change;
- **change streams** emit changes only;
- **event streams** emit changes only and never carry null;
- **invalidation streams** emit only the fact that something changed.

Streams are built from one another with `map`, `filter`, `flatMap`, `or`,
`conditionOn`, `withDefault` and related methods. A stream observes its
source only while it has observers of its own.

The project is organised as the library is:

- `wrappers.dfy`: `Option`, `Result` and the exceptions the library throws.
- `optional_value.dfy`: `OptionalValue`. It is either empty, or present
  with a payload that may itself be null.
- `list_helper.dfy`: `ListHelper`, the copy-on-write observer registry
  with its iteration counter. It includes a loop that drains an iterator.
- `emission.dfy`: `emit` and `forEach` over the registry while the
  observers being called add and remove observers, and may throw.
- `activation.dfy`: `BaseObservableStream`'s life cycle. This covers
  `addObserver`, `removeObserver`, subscribing when the first observer
  arrives, cancelling when the last one leaves, and handing the current
  value to a new observer.
- `operators.dfy`: the per-value handlers of `map`, `filter`,
  `filterNull` and `peek`, and the operators that compute a value stream's
  current value.
- `pipeline.dfy`: streams as a graph built by the API methods, and
  `getCurrentValue` over that graph. It records which stream type offers
  which method, what each method returns, and which null arguments it
  rejects.
- `traces.dfy`: what linear pipelines emit over a series of outside
  changes, stated against reference definitions (nulls dropped, nulls
  replaced, filtered).
- `switching.dfy`: the `flatMap` switching handler, with `conditionOn`
  built as three instances of it.
- `fallback.dfy`: `or`, both as the code behaves and as it is documented
  (see Findings).
- `sources.dfy`: `EventSource` and `ChangeSource`.

Java `null` is modelled explicitly as `Nullable` (`Null | Val(v)`), for
payloads and for arguments alike. Exceptions are `Result` errors.

The model follows the code where the documentation and the code differ.
There are two such places:

- `flatMap` on value streams. The diagram in
  eventstream-api/src/main/java/hs/jfx/eventstream/api/ValueStream.java
  (lines 103-110) shows no emission when the source selects the stream that
  is already tracked. The code cancels and resubscribes that stream, so a
  value stream re-emits its current value (`Switching.ReselectionReemits`).
- `or`, which is described under Findings.

## Model

| member | source | states |
|---|---|---|
| Optionals.Get | eventstream-api/src/main/java/hs/jfx/eventstream/api/OptionalValue.java:64-76 | `get` returns the contained value, null included, and throws NoSuchElementException("No value present") exactly when empty |
| Optionals.Of | eventstream-api/src/main/java/hs/jfx/eventstream/api/OptionalValue.java:20-29 | `of` is always present and `get` gives back the value, null included |
| Optionals.OfNullable | eventstream-api/src/main/java/hs/jfx/eventstream/api/OptionalValue.java:30-42 | `ofNullable` is empty exactly for null and otherwise holds the value |
| Optionals.OrElse | eventstream-api/src/main/java/hs/jfx/eventstream/api/OptionalValue.java:101-111 | `orElse` gives the contained value whenever present, even a null one, and the alternative only when empty |
| Optionals.IfPresent | eventstream-api/src/main/java/hs/jfx/eventstream/api/OptionalValue.java:78-90 | `ifPresent` rejects a null consumer and otherwise calls it once with the value, or not at all when empty |
| Optionals.Delivered | eventstream-api/src/main/java/hs/jfx/eventstream/api/OptionalValue.java:84-89 | what `ifPresent` hands a consumer: one value exactly when present, and `get` agrees with it |
| Optionals.Map | eventstream-api/src/main/java/hs/jfx/eventstream/api/OptionalValue.java:113-125 | `map` rejects a null mapper, applies the mapper only to a present value (null included), and wraps the result with `of` |
| Optionals.FlatMap | eventstream-api/src/main/java/hs/jfx/eventstream/api/OptionalValue.java:127-146 | `flatMap` rejects a null mapper and a mapper that returns null, and otherwise returns the mapper's result for a present value or empty |
| Optionals.OrElseAgreesWithGet | eventstream-api/src/main/java/hs/jfx/eventstream/api/OptionalValue.java:64-111 | `orElse` uses the alternative exactly when `get` would throw and otherwise returns what `get` returns |
| Optionals.MapIsFlatMapOfOf | eventstream-api/src/main/java/hs/jfx/eventstream/api/OptionalValue.java:121-146 | `map(f)` equals `flatMap(v -> of(f(v)))` in result and in the calls made |
| Optionals.FlatMapOfIsApply | eventstream-api/src/main/java/hs/jfx/eventstream/api/OptionalValue.java:27-146 | `of(v).flatMap(g)` calls `g` once with `v`, null included, and returns its result |
| Optionals.FlatMapWithOfIsIdentity | eventstream-api/src/main/java/hs/jfx/eventstream/api/OptionalValue.java:135-146 | `o.flatMap(OptionalValue::of)` is `o` |
| Optionals.OfNullableVersusOf | eventstream-api/src/main/java/hs/jfx/eventstream/api/OptionalValue.java:27-42 | `of` and `ofNullable` agree on every non-null value and differ on null |
| ListHelper.IndexOf | eventstream-core/src/main/java/hs/jfx/eventstream/core/util/ListHelper.java:177-180 | the index is -1 exactly when the element is absent, and otherwise is the position of its first occurrence |
| ListHelper.RemoveAtIndexOf | eventstream-core/src/main/java/hs/jfx/eventstream/core/util/ListHelper.java:177-191 | cutting the list at the index found removes the first occurrence, as `List.remove(Object)` does |
| ListHelper.Add | eventstream-core/src/main/java/hs/jfx/eventstream/core/util/ListHelper.java:15-21 | the registry afterwards holds the old observers followed by the new one. A registry under iteration is never changed; it is copied, and the copy is not under iteration |
| ListHelper.Remove | eventstream-core/src/main/java/hs/jfx/eventstream/core/util/ListHelper.java:23-29 | the registry afterwards is the old one without the first equal observer. A missing observer leaves the very same registry, and a registry under iteration is copied rather than changed |
| ListHelper.Size | eventstream-core/src/main/java/hs/jfx/eventstream/core/util/ListHelper.java:57-63 | the size is the number of registered observers |
| ListHelper.IsEmpty | eventstream-core/src/main/java/hs/jfx/eventstream/core/util/ListHelper.java:53-55 | only the absent registry is empty, and that is exactly size zero |
| ListHelper.ToArray | eventstream-core/src/main/java/hs/jfx/eventstream/core/util/ListHelper.java:45-51 | the array holds the observers in registration order, one slot each |
| ListHelper.Iterator | eventstream-core/src/main/java/hs/jfx/eventstream/core/util/ListHelper.java:208-219 | the iterator covers every observer; a list-backed registry counts one more iteration in progress |
| ListHelper.Next | eventstream-core/src/main/java/hs/jfx/eventstream/core/util/ListHelper.java:227-240 | `next` returns the element at the cursor and stops counting the iteration as it hands out the last one. Past the end it throws NoSuchElementException |
| ListHelper.Drain | eventstream-core/src/main/java/hs/jfx/eventstream/core/util/ListHelper.java:213-242 | iterating with `next` until `hasNext` fails yields every observer once, in order, and leaves the registry as it was |
| ListHelper.AddThenRemove | eventstream-core/src/main/java/hs/jfx/eventstream/core/util/ListHelper.java:15-29 | adding a new observer and removing it gives back the original observers |
| ListHelper.AddTwiceRemoveOnce | eventstream-api/src/main/java/hs/jfx/eventstream/api/ObservableStream.java:18-36 | an observer added twice is registered twice, and one removal leaves one registration |
| Emission.ApplyOps | eventstream-core/src/main/java/hs/jfx/eventstream/core/util/ListHelper.java:165-194 | registry changes made during an emission give the same observers as on plain lists and never alter the list being traversed |
| Emission.Traverse | eventstream-core/src/main/java/hs/jfx/eventstream/core/impl/BaseObservableStream.java:66-74 | `emit` calls the observers registered when it started, in order, even when they add or remove observers, and stops after one that throws. The registry afterwards reflects the changes of every observer called. The iteration count is restored once the last observer is handed out; a throw before that leaves the list counted as under iteration |
| Emission.ForEach | eventstream-core/src/main/java/hs/jfx/eventstream/core/util/ListHelper.java:196-206 | `forEach` calls the observers in order up to one that throws. The count is raised during the calls, so the consumer's registry changes copy the list instead of changing it, and the `finally` block restores the traversed object exactly, whether or not the consumer throws |
| Emission.SelfRemovalDuringEmission | eventstream-core/src/main/java/hs/jfx/eventstream/core/impl/BaseObservableStream.java:51-74 | in a registry of any size, an observer registered once that removes itself while being called makes exactly that one change. Afterwards it is gone and every other observer keeps its place; `Emission.Traverse` still calls it in that emission |
| Activation.NewStream | eventstream-core/src/main/java/hs/jfx/eventstream/core/impl/BaseObservableStream.java:28-32 | a new stream has no observers and no subscription, and meets the life-cycle invariant |
| Activation.AddObserver | eventstream-core/src/main/java/hs/jfx/eventstream/core/impl/BaseObservableStream.java:34-49 | a null observer is rejected with "observer cannot be null". Otherwise the stream subscribes if it was not subscribed, a value stream hands the new observer its current value, and only then is the observer appended |
| Activation.RemoveObserver | eventstream-core/src/main/java/hs/jfx/eventstream/core/impl/BaseObservableStream.java:51-59 | a null observer is rejected. Otherwise one registration is removed, and a subscribed stream left without observers cancels its subscription exactly then |
| Activation.Emit | eventstream-core/src/main/java/hs/jfx/eventstream/core/impl/BaseObservableStream.java:66-74 | every registration receives the value once, in registration order: what the iterator loop delivers when nobody throws (`Activation.EmitWhileChanging`) |
| Activation.EmitWhileChanging | eventstream-core/src/main/java/hs/jfx/eventstream/core/impl/BaseObservableStream.java:66-74 | the iterator loop of `emit`, with observers that change the registry and may throw, delivers exactly `Emit`'s deliveries when none throws, and the part up to the throwing observer otherwise. The registry afterwards reflects the changes of the observers reached |
| Activation.AddObserverKeepsInv | eventstream-core/src/main/java/hs/jfx/eventstream/core/impl/BaseObservableStream.java:34-49 | adding an observer keeps the stream subscribed exactly while it has observers, with one live subscription |
| Activation.RemoveObserverKeepsInv | eventstream-core/src/main/java/hs/jfx/eventstream/core/impl/BaseObservableStream.java:51-59 | removing an observer keeps the same invariant |
| Activation.NewObserverSeesOnlyCurrentValue | eventstream-core/src/main/java/hs/jfx/eventstream/core/impl/BaseObservableStream.java:40-48 | the first observer of a value stream receives exactly its current value and nothing emitted while the stream subscribes |
| Activation.SubscribesOnlyWhenInactive | eventstream-core/src/main/java/hs/jfx/eventstream/core/impl/BaseObservableStream.java:40-42 | a second observer does not subscribe the stream again |
| Activation.AddedTwiceRemovedTwice | eventstream-api/src/main/java/hs/jfx/eventstream/api/ObservableStream.java:18-36 | an observer added twice receives each value twice, and needs two removals before the stream cancels its subscription |
| Activation.RemoveUnknownObserver | eventstream-api/src/main/java/hs/jfx/eventstream/api/ObservableStream.java:29-36 | removing an observer that is not registered changes nothing |
| Activation.SubscribeThenUnsubscribe | eventstream-api/src/main/java/hs/jfx/eventstream/api/ObservableStream.java:38-53 | subscribing then cancelling returns a stream to idle with one subscription made and cancelled |
| Operators.Operate | eventstream-core/src/main/java/hs/jfx/eventstream/core/impl/MapStreams.java:37-43 | a null-safe operator is present for every input and uses the replacement for null; a null-rejecting one is empty exactly when its mapper gives null |
| Operators.MapForward | eventstream-core/src/main/java/hs/jfx/eventstream/core/impl/MapStreams.java:45-47 | a map stream forwards the operator's value when present and nothing otherwise |
| Operators.NullSafeIgnoresMapperOnNull | eventstream-core/src/main/java/hs/jfx/eventstream/core/impl/MapStreams.java:37-39 | the mapper is never consulted for null: any two mappers forward the same replacement |
| Operators.NullSafeForwardsEveryValue | eventstream-core/src/main/java/hs/jfx/eventstream/core/impl/MapStreams.java:37-39 | a change or value `map` forwards exactly one value for each source value |
| Operators.NullRejectingDropsNulls | eventstream-core/src/main/java/hs/jfx/eventstream/core/impl/MapStreams.java:41-43 | an event `map` never forwards null, and drops exactly the values its mapper turns into null |
| Operators.CurrentValueAgreesWithForwarding | eventstream-core/src/main/java/hs/jfx/eventstream/core/impl/BaseObservableStream.java:84-86 | what a value stream hands a new subscriber is what it would forward had the source emitted its current value |
| Operators.ChangeFilterForward | eventstream-core/src/main/java/hs/jfx/eventstream/core/impl/FilterStreams.java:21-27 | null always passes a change filter; other values pass exactly when the predicate holds |
| Operators.EventFilterForward | eventstream-core/src/main/java/hs/jfx/eventstream/core/impl/FilterStreams.java:29-35 | an event filter forwards a value exactly when the predicate holds |
| Operators.FilterNullForward | eventstream-core/src/main/java/hs/jfx/eventstream/core/impl/FilterNullStreams.java:13-19 | `filterNull` forwards every non-null value and drops null |
| Operators.FiltersAgreeOffNull | eventstream-core/src/main/java/hs/jfx/eventstream/core/impl/FilterStreams.java:21-35 | for any predicate, the change and event filter handlers agree on every non-null value. On null they differ exactly when the predicate rejects null |
| Operators.PeekHandle | eventstream-core/src/main/java/hs/jfx/eventstream/core/impl/PeekStreams.java:29-53 | a value arriving while the side effect runs is rejected with IllegalStateException. A throwing side effect blocks the value, and the flag is lowered in every case |
| Operators.PeekRecoversAfterFailure | eventstream-core/src/main/java/hs/jfx/eventstream/core/impl/PeekStreams.java:42-47 | after a side effect throws, the next value is handled normally |
| Pipeline.CurrentValue | eventstream-core/src/main/java/hs/jfx/eventstream/core/impl/BaseObservableStream.java:84-86 | only value streams have a current value |
| Pipeline.InitialValues | eventstream-core/src/main/java/hs/jfx/eventstream/core/impl/BaseObservableStream.java:80-82 | a new subscriber receives the current value exactly when there is one, and nothing else; only value streams have one |
| Pipeline.FlatMapper | eventstream-core/src/main/java/hs/jfx/eventstream/core/impl/FlatMapStreams.java:40-42 | null never reaches the mapper and selects the null replacement |
| Pipeline.FlatMapperPassesValues | eventstream-core/src/main/java/hs/jfx/eventstream/core/impl/FlatMapStreams.java:40-42 | non-null values reach the mapper unchanged |
| Pipeline.Derive | eventstream-core/src/main/java/hs/jfx/eventstream/core/impl/BaseValueStream.java:31-127 | every method rejects exactly its null arguments with NullPointerException; otherwise it returns a stream of the declared type that the API can build |
| Traces.FilterNullTrace | eventstream-core/src/main/java/hs/jfx/eventstream/core/impl/FilterNullStreams.java:9-19 | `filterNull` emits its source's values with the nulls removed, in order |
| Traces.OrElseTrace | eventstream-core/src/main/java/hs/jfx/eventstream/core/impl/BaseValueStream.java:108-111 | `orElse` emits one value per source value, null replaced by the alternative |
| Traces.ChangeFilterTrace | eventstream-core/src/main/java/hs/jfx/eventstream/core/impl/FilterStreams.java:17-27 | `filter` on a value or change stream keeps nulls and the matching values, in order |
| Traces.DefaultTrace | eventstream-core/src/main/java/hs/jfx/eventstream/core/impl/DefaultStreams.java:12-16 | `withDefault` forwards every source value unchanged, yet hands new subscribers only the default |
| Traces.ReplaceTrace | eventstream-core/src/main/java/hs/jfx/eventstream/core/impl/BaseInvalidationStream.java:21-26 | `replace` emits the supplier's value once per invalidation and nothing to new subscribers |
| Traces.EventsAreNeverNull | eventstream-core/src/main/java/hs/jfx/eventstream/core/impl/RootEventStream.java:10-16 | no linear event pipeline (one without `flatMap`, `or` or `conditionOn`) ever emits null |
| Traces.EmitsCurrentValue | eventstream-core/src/main/java/hs/jfx/eventstream/core/impl/RootValueStream.java:17-31 | a value stream over a property emits, on a change, exactly the current value a new subscriber would then receive |
| Traces.CurrentValueRestartsAtDefault | eventstream-api/src/main/java/hs/jfx/eventstream/api/ValueStream.java:215-228 | the library's own example: a filtered value stream given default "X" and mapped with `v + "Y"` has current value "XY", whatever the property holds |
| Traces.PeekActivation | eventstream-core/src/main/java/hs/jfx/eventstream/core/impl/PeekStreams.java:25-27 | activating a value `peek` shows the side effect the current value once, and the subscriber receives that same value |
| Switching.Handed | eventstream-core/src/main/java/hs/jfx/eventstream/core/impl/BaseObservableStream.java:44-46 | subscribing to an inner stream hands over its current value, and only for a value stream |
| Switching.Switch | eventstream-core/src/main/java/hs/jfx/eventstream/core/impl/FlatMapStreams.java:59-77 | the old inner subscription is cancelled before the new one is made. Null or a missing stream tracks nothing, and a value inner emits its current value at once |
| Switching.SwitchEmissions | eventstream-core/src/main/java/hs/jfx/eventstream/core/impl/FlatMapStreams.java:59-77 | whatever was tracked before, a source value makes the handler emit exactly what the newly selected stream hands a new subscriber, and nothing when no stream is selected |
| Switching.OldInnerSilenced | eventstream-core/src/main/java/hs/jfx/eventstream/core/impl/FlatMapStreams.java:75-76 | after switching away, the old inner stream's values no longer get through |
| Switching.ChangeSwitchEmitsNothing | eventstream-api/src/main/java/hs/jfx/eventstream/api/ValueStream.java:120-140 | switching to a change or event stream emits nothing until it changes |
| Switching.ValueSwitchEmitsCurrent | eventstream-api/src/main/java/hs/jfx/eventstream/api/ValueStream.java:95-110 | switching to a value stream, from whatever was tracked before, emits that stream's current value at once |
| Switching.ReselectionReemits | eventstream-core/src/main/java/hs/jfx/eventstream/core/impl/FlatMapStreams.java:75-76 | re-selecting the tracked value stream cancels, resubscribes and re-emits its current value |
| Switching.NullInnerIsSilent | eventstream-core/src/main/java/hs/jfx/eventstream/core/impl/FlatMapStreams.java:62-76 | a null mapping leaves nothing tracked, so the stream is silent until the source emits again |
| Switching.InnerSurvivesDeactivation | eventstream-core/src/main/java/hs/jfx/eventstream/core/impl/FlatMapStreams.java:53-78 | losing the last observer cancels only the source subscription; the inner subscription stays live and resumes on reactivation from a change source |
| Switching.ReactivationCancelsStale | eventstream-core/src/main/java/hs/jfx/eventstream/core/impl/FlatMapStreams.java:58-77 | reactivation from a value source cancels the stale inner subscription first |
| Switching.InactiveIgnoresSource | eventstream-core/src/main/java/hs/jfx/eventstream/core/impl/BaseObservableStream.java:51-59 | without observers the handler no longer sees its source |
| Switching.ConditionSelect | eventstream-core/src/main/java/hs/jfx/eventstream/core/impl/BaseValueStream.java:113-127 | `conditionOn` tracks the stream itself exactly when the condition is true; false and null never select it |
| Switching.ConditionInners | eventstream-core/src/main/java/hs/jfx/eventstream/core/impl/BaseValueStream.java:137-140 | the stand-in stream for a false condition never hands anything over |
| Switching.ConditionFalseBlocks | eventstream-api/src/main/java/hs/jfx/eventstream/api/ChangeStream.java:78-91 | while the condition is false or null, nothing of the stream gets through |
| Switching.ConditionTrueConnects | eventstream-api/src/main/java/hs/jfx/eventstream/api/ValueStream.java:57-73 | when the condition becomes true, from whatever was tracked before, the stream is observed again. A value stream then emits its current value at once; other kinds emit nothing |
| Fallback.SubscribeAsWritten | eventstream-core/src/main/java/hs/jfx/eventstream/core/impl/BaseValueStream.java:93-105 | a subscriber joining while the source is non-null leaves the source's observer copy ahead of the handler; a null source switches to the fallback |
| Fallback.StepAsWritten | eventstream-core/src/main/java/hs/jfx/eventstream/core/impl/BaseValueStream.java:93-105 | a non-null change delivers the stale copy's value, if there is one, and then the source's current value. After the first change no stale copy remains |
| Fallback.SubscribeCorrected | eventstream-api/src/main/java/hs/jfx/eventstream/api/ValueStream.java:173-183 | the documented subscription: the fallback is followed exactly when the source is null |
| Fallback.StepCorrected | eventstream-api/src/main/java/hs/jfx/eventstream/api/ValueStream.java:173-183 | the documented step: at most one value per change, and the fallback is followed exactly after a null |
| Fallback.CorrectedIsIntended | eventstream-api/src/main/java/hs/jfx/eventstream/api/ValueStream.java:173-183 | for every history of changes, the corrected handler delivers the source's non-null values, and otherwise the fallback's values until the source emits again |
| Fallback.AsWrittenAgreesOnceSettled | eventstream-core/src/main/java/hs/jfx/eventstream/core/impl/BaseValueStream.java:74-106 | over a property-like source, the code behaves as documented once the first source change after subscribing has passed |
| Fallback.SubscriptionAgrees | eventstream-core/src/main/java/hs/jfx/eventstream/core/impl/BaseValueStream.java:93-105 | subscribing delivers the same first value either way: the source's non-null value or the fallback's |
| Fallback.DoubleDelivery | eventstream-core/src/main/java/hs/jfx/eventstream/core/impl/BaseValueStream.java:93-105 | the first non-null change after subscribing to a non-null source is delivered twice |
| Fallback.DefaultSubstituted | eventstream-core/src/main/java/hs/jfx/eventstream/core/impl/BaseValueStream.java:96-105 | over a `withDefault` source, later changes deliver the default instead of the value emitted |
| Fallback.AsWrittenMatchesLibraryTest | eventstream-core/src/test/java/hs/jfx/eventstream/core/ValueStreamTest.java:472-495 | the as-written model reproduces the library's own `or` test, which starts from a null source and so never meets the stale copy |
| Sources.NewSource | eventstream-core/src/main/java/hs/jfx/eventstream/core/EventSource.java:20-22 | a source starts idle, has no current value and its subscription never emits |
| Sources.PushEvent | eventstream-core/src/main/java/hs/jfx/eventstream/core/EventSource.java:29-31 | pushing null is rejected with NullPointerException; any other value reaches every observer once, in order |
| Sources.ChangePushAcceptsNull | eventstream-core/src/main/java/hs/jfx/eventstream/core/ChangeSource.java:35-37 | a change source delivers null like any other value |
| Sources.SubscribingDeliversNothing | eventstream-core/src/main/java/hs/jfx/eventstream/core/ChangeSource.java:21-27 | subscribing to a source delivers nothing |
| Sources.PushReachesSubscriberOnly | eventstream-core/src/main/java/hs/jfx/eventstream/core/EventSource.java:15-31 | a pushed value reaches an observer exactly while it is subscribed, and unsubscribing returns the source to idle |

## Left out

- JavaFX itself is not modelled. This covers properties, listeners, `toBinding`, `ValueStreamBinding` and the `Values`, `Changes`, `Events` and `Invalidations` adapters. A property is a cell of a `World` map, and a change of it is a happening.
- `bind` on value streams is not modelled. It is a value `flatMap` onto a root value stream of the observable the mapper returns, so it is covered by `flatMap` over value inner streams.
- Suppliers and mappers are pure. A supplier is modelled by the value it returns, and a mapper by a function.
- Activation.AddObserver: an observer that throws on its initial value is not modelled. `addObserver` has then subscribed without registering the observer, so the stream stays subscribed with no observers, which breaks the life-cycle invariant; the model assumes the initial delivery returns normally.
- A throwing observer is modelled as throwing after all the registry changes it makes (`Emission.Traverse`, `Emission.ForEach`). Changes it would have made after the throw do not happen in Java either, so this only fixes which changes count as made.
- Timing of arbitrary reentrant emission is not modelled beyond the two places where it matters: registry changes during `emit` (Emission) and recursive emission inside `peek` (Operators.PeekHandle).
- `flatMap` inner streams are a finite family named by index. An index outside the family stands for the null stream. Inner streams are described by their kind and current value; their own pipelines are not expanded.
- Pipeline.CurrentValue: stated weaker than the source's promise in its own contract. Its value for each method is established by the Traces lemmas and by `Traces.CurrentValueRestartsAtDefault`.
- Traces covers linear pipelines only, meaning ones without `flatMap`, `or` or `conditionOn`. The switching operators are covered by the Switching and Fallback modules, one handler at a time.
- `or` with a supplier that returns null is not modelled. The source then subscribes nothing, and the stream's current value is empty.
- The constructors of `BaseChangeStream`, `BaseEventStream`, `ChangeSource`, `MapStreams` and `DefaultStreams` disagree with one another on their parameter lists. The source is partly refactored. They are read as (source, subscriber, operator). `DefaultStreams.value` passes no source, so the current value is always the default, which agrees with the library's own example in `ValueStream.getCurrentValue`.
- The legacy `src/` tree, the superseded single-class `impl/*Stream.java` files and the experimental transactions module are not part of this model.
- Garbage-collection behaviour, boxing casts and the generic type parameters are not modelled. One payload type `V` stands for every stream's element type.

## Findings

| source | as written | input that shows it | evidently intended | confidence | as-written member | corrected member |
|---|---|---|---|---|---|---|
| eventstream-core/src/main/java/hs/jfx/eventstream/core/impl/BaseValueStream.java:93-105 | subscribing the null-skipping copy of the source happens while the `or` handler itself is being registered. `addObserver` registers an observer only after handing it the initial value, so the copy's observer ends up ahead of the handler in the source's list | `Values.of(p).or(s).subscribe(c)` with `p` holding "A", then `p.set("B")`: `c` receives "A", then "B" twice | each change of the source is delivered once, as `ValueStream.or` documents | medium, not executed | Fallback.DoubleDelivery | Fallback.CorrectedIsIntended |
| eventstream-core/src/main/java/hs/jfx/eventstream/core/impl/BaseValueStream.java:96-105 | after a switch, the copy hands over the source's current value rather than the value the source emitted | `changes.withDefault("D").or(s).subscribe(c)`, then push "A" and "B": `c` receives "D", then "A" and "D", then "D" again instead of "B" | the subscriber receives the value the source emitted | medium, not executed | Fallback.DefaultSubstituted | Fallback.CorrectedIsIntended |
