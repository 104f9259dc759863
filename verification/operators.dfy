/**
 * The per-value behaviour of the stream operators: the operators that turn a
 * source value into this stream's value (used both when values flow and when
 * a value stream computes its current value), and the handlers each derived
 * stream installs on its source.
 */
module Operators {
  import opened Wrappers
  import opened Optionals

  /** How a stream derives its value from a source value. */
  datatype Operator<!V> =
    | NullSafe(mapper: V -> Nullable<V>, replacement: Nullable<V>)  // a mapper not called on null; null becomes the supplied replacement
    | NullRejecting(convert: Nullable<V> -> Nullable<V>)           // a mapper whose null results are dropped
    | Pass                                                         // `OptionalValue::of`: the source value as it is
    | Supplies(value: Nullable<V>)                                 // ignores the source and supplies a value
    | Nothing                                                      // a stream without a value

  /** `Operator.operate`. */
  function Operate<V>(op: Operator<V>, v: Nullable<V>): (r: OptionalValue<V>)
    ensures op.NullSafe? || op.Pass? || op.Supplies? ==> IsPresent(r)
    ensures op.Pass? ==> r == Of(v)
    ensures op.Nothing? ==> r == Empty
    ensures op.NullRejecting? ==> (IsPresent(r) <==> op.convert(v).Val?) && r != Present(Null)
  {
    match op
    case NullSafe(f, replacement) => Of(if v.Null? then replacement else f(v.value))
    case NullRejecting(f) => OfNullable(f(v))
    case Pass => Of(v)
    case Supplies(x) => Of(x)
    case Nothing => Empty
  }

  /** The values a stream forwards when its source emits `v`: the operator's value if there is one. */
  function MapForward<V>(op: Operator<V>, v: Nullable<V>): (out: seq<Nullable<V>>)
    ensures |out| <= 1
    ensures |out| == 1 <==> IsPresent(Operate(op, v))
    ensures |out| == 1 ==> Get(Operate(op, v)) == Ok(out[0])
  {
    Delivered(Operate(op, v))
  }

  /** A null-safe mapper is never consulted for null: any two mappers agree there. */
  lemma NullSafeIgnoresMapperOnNull<V>(f: V -> Nullable<V>, g: V -> Nullable<V>, replacement: Nullable<V>)
    ensures MapForward(NullSafe(f, replacement), Null) == MapForward(NullSafe(g, replacement), Null) == [replacement]
  {
  }

  /** A null-safe map forwards exactly one value for every source value. */
  lemma NullSafeForwardsEveryValue<V>(f: V -> Nullable<V>, replacement: Nullable<V>, v: Nullable<V>)
    ensures MapForward(NullSafe(f, replacement), v) == [if v.Val? then f(v.value) else replacement]
  {
  }

  /** A null-rejecting map never forwards null, and drops exactly the values its mapper turns into null. */
  lemma NullRejectingDropsNulls<V>(f: Nullable<V> -> Nullable<V>, v: Nullable<V>)
    ensures Null !in MapForward(NullRejecting(f), v)
    ensures MapForward(NullRejecting(f), v) == (if f(v).Val? then [f(v)] else [])
  {
  }

  /**
   * What a value stream hands a new subscriber agrees with what it forwards:
   * when the source's current value is `v`, the new subscriber receives
   * exactly what the stream would forward had the source emitted `v`.
   */
  lemma CurrentValueAgreesWithForwarding<V>(op: Operator<V>, v: Nullable<V>)
    ensures var initial := Bind(Present(v), (x: Nullable<V>) => Operate(op, x));
            Delivered(initial) == MapForward(op, v)
  {
  }

  /** The handler of a change-stream `filter`: null always passes without consulting the predicate. */
  function ChangeFilterForward<V>(test: Nullable<V> -> bool, v: Nullable<V>): (out: seq<Nullable<V>>)
    ensures out == [] || out == [v]
    ensures v.Null? ==> out == [v]
    ensures v.Val? ==> (out == [v] <==> test(v))
  {
    if v.Null? || test(v) then [v] else []
  }

  /** The handler of an event-stream `filter`: the predicate alone decides, and it sees every value. */
  function EventFilterForward<V>(test: Nullable<V> -> bool, v: Nullable<V>): (out: seq<Nullable<V>>)
    ensures out == [] || out == [v]
    ensures out == [v] <==> test(v)
  {
    if test(v) then [v] else []
  }

  /** The handler of `filterNull`: non-null values pass, null is dropped. */
  function FilterNullForward<V>(v: Nullable<V>): (out: seq<Nullable<V>>)
    ensures out == [] || out == [v]
    ensures out == [v] <==> v.Val?
  {
    if v.Val? then [v] else []
  }

  /**
   * The change and event filter handlers agree on every non-null value, for
   * any predicate; on null they differ exactly when the predicate rejects
   * null, which only the event handler consults.
   */
  lemma FiltersAgreeOffNull<V>(test: Nullable<V> -> bool, v: Nullable<V>)
    ensures v.Val? ==> ChangeFilterForward(test, v) == EventFilterForward(test, v)
    ensures v.Null? ==> (ChangeFilterForward(test, v) != EventFilterForward(test, v) <==> !test(v))
  {
  }

  /** What a side effect does when a `peek` stream calls it. */
  datatype SideEffect<V> =
    | Returns                                  // returns normally
    | Throws(error: Error)                     // throws
    | Reemits(nested: Nullable<V>, catches: bool)  // makes the source emit again, and may catch what that throws

  /**
   * The outcome of the `peek` handler for one value: what it forwards or
   * throws, the values the side effect was called with, and the
   * side-effect-in-progress flag afterwards.
   */
  datatype PeekOutcome<V> = PeekOutcome(result: Result<seq<Nullable<V>>>, effected: seq<Nullable<V>>, busyAfter: bool)

  const RecursiveEmission: Error := IllegalState(Some("Side effect is not allowed to cause recursive event emission"))

  /**
   * The `peek` handler: rejects a value arriving while the side effect runs;
   * otherwise runs the side effect once, clears the flag whatever happens, and
   * forwards the value only when the side effect completed.
   */
  function PeekHandle<V>(busy: bool, v: Nullable<V>, effect: SideEffect<V>): (r: PeekOutcome<V>)
    ensures busy ==> r == PeekOutcome(Err(RecursiveEmission), [], true)
    ensures !busy ==> !r.busyAfter && r.effected == [v]
    ensures r.result.Ok? ==> r.result.value == [v]
    ensures !busy && effect.Returns? ==> r.result == Ok([v])
    ensures !busy && effect.Throws? ==> r.result == Err(effect.error)
    ensures !busy && effect.Reemits? ==> (r.result.Ok? <==> effect.catches)
    ensures !busy && effect.Reemits? && !effect.catches ==> r.result == Err(RecursiveEmission)
    decreases !busy
  {
    if busy then PeekOutcome(Err(RecursiveEmission), [], true)
    else
      match effect
      case Returns => PeekOutcome(Ok([v]), [v], false)
      case Throws(e) => PeekOutcome(Err(e), [v], false)
      case Reemits(w, catches) =>
        var nested := PeekHandle(true, w, Returns);
        if nested.result.Err? && !catches then PeekOutcome(Err(nested.result.error), [v], false)
        else PeekOutcome(Ok([v]), [v], false)
  }

  /** The flag is down after every top-level call, so one failure never blocks later values. */
  lemma PeekRecoversAfterFailure<V>(v: Nullable<V>, w: Nullable<V>, effect: SideEffect<V>)
    ensures PeekHandle(PeekHandle(false, v, effect).busyAfter, w, Returns).result == Ok([w])
  {
  }
}
