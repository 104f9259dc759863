/**
 * OptionalValue: like java.util.Optional, but `null` is a legal contained value,
 * so "no value" and "the value null" stay distinct.
 */
module Optionals {
  import opened Wrappers

  /** A Java reference that may be null: a payload, or an argument such as a mapper or a supplier. */
  datatype Nullable<+T> = Null | Val(value: T)

  /** An OptionalValue: absent, or present with a payload that may itself be null. */
  datatype OptionalValue<+T> = Empty | Present(content: Nullable<T>)

  /** The result of a call that takes a function argument, with every argument that function was applied to. */
  datatype Applied<+A, +R> = Applied(result: Result<R>, calls: seq<Nullable<A>>)

  predicate IsPresent<T>(o: OptionalValue<T>) {
    o.Present?
  }

  /** `get`: the contained value, or NoSuchElementException when empty. */
  function Get<T>(o: OptionalValue<T>): (r: Result<Nullable<T>>)
    ensures r.Ok? <==> IsPresent(o)
    ensures r.Err? ==> r.error == NoSuchElement(Some("No value present"))
  {
    if !o.Present? then Err(NoSuchElement(Some("No value present"))) else Ok(o.content)
  }

  /** `of`: present with the given value, null included. */
  function Of<T>(v: Nullable<T>): (r: OptionalValue<T>)
    ensures IsPresent(r) && Get(r) == Ok(v)
  {
    Present(v)
  }

  /** `ofNullable`: empty for null, otherwise present with the value. */
  function OfNullable<T>(v: Nullable<T>): (r: OptionalValue<T>)
    ensures IsPresent(r) <==> v.Val?
    ensures IsPresent(r) ==> Get(r) == Ok(v)
  {
    if v.Null? then Empty else Present(v)
  }

  /** `orElse`: the contained value when present (even if null), otherwise the alternative. */
  function OrElse<T>(o: OptionalValue<T>, alternative: Nullable<T>): (r: Nullable<T>)
    ensures IsPresent(o) ==> Get(o) == Ok(r)
    ensures !IsPresent(o) ==> r == alternative
  {
    match o
    case Empty => alternative
    case Present(v) => v
  }

  /**
   * `ifPresent`: the values handed to the consumer (at most one), or the
   * NullPointerException for a null consumer, raised even when empty.
   */
  function IfPresent<T, C>(o: OptionalValue<T>, consumer: Nullable<C>): (r: Result<seq<Nullable<T>>>)
    ensures r.Err? <==> consumer.Null?
    ensures r.Err? ==> r.error == RequireNonNull
    ensures r.Ok? ==> |r.value| == (if IsPresent(o) then 1 else 0)
    ensures r.Ok? ==> forall i :: 0 <= i < |r.value| ==> Get(o) == Ok(r.value[i])
  {
    if consumer.Null? then Err(RequireNonNull)
    else if o.Present? then Ok([o.content])
    else Ok([])
  }

  /** What `ifPresent` hands a non-null consumer: the value, when one is present. */
  function Delivered<T>(o: OptionalValue<T>): (out: seq<Nullable<T>>)
    ensures |out| <= 1
    ensures out != [] <==> IsPresent(o)
    ensures out != [] ==> Get(o) == Ok(out[0])
  {
    IfPresent(o, Val(())).value
  }

  /**
   * `map`: applies the mapper to a present value (null included) and wraps the
   * result with `of`, so a null result is still present; never calls the mapper
   * when empty; a null mapper is rejected even when empty.
   */
  function Map<T, U>(o: OptionalValue<T>, mapper: Nullable<Nullable<T> -> Nullable<U>>): (r: Applied<T, OptionalValue<U>>)
    ensures mapper.Null? ==> r.result == Err(RequireNonNull) && r.calls == []
    ensures mapper.Val? ==> r.result.Ok?
    ensures !IsPresent(o) ==> r.calls == [] && (mapper.Val? ==> r.result == Ok(Empty))
    ensures mapper.Val? && IsPresent(o) ==>
              r.calls == [o.content] && IsPresent(r.result.value) && Get(r.result.value) == Ok(mapper.value(o.content))
  {
    if mapper.Null? then Applied(Err(RequireNonNull), [])
    else if o.Present? then Applied(Ok(Of(mapper.value(o.content))), [o.content])
    else Applied(Ok(Empty), [])
  }

  /**
   * `flatMap`: a present value yields exactly the mapper's result; a null
   * result is rejected with NullPointerException; empty stays empty.
   */
  function FlatMap<T, U>(o: OptionalValue<T>, mapper: Nullable<Nullable<T> -> Nullable<OptionalValue<U>>>): (r: Applied<T, OptionalValue<U>>)
    ensures mapper.Null? ==> r.result == Err(RequireNonNull) && r.calls == []
    ensures !IsPresent(o) ==> r.calls == [] && (mapper.Val? ==> r.result == Ok(Empty))
    ensures mapper.Val? && IsPresent(o) ==> r.calls == [o.content]
    ensures mapper.Val? && IsPresent(o) && mapper.value(o.content).Val? ==> r.result == Ok(mapper.value(o.content).value)
    ensures mapper.Val? && IsPresent(o) && mapper.value(o.content).Null? ==> r.result == Err(RequireNonNull)
  {
    if mapper.Null? then Applied(Err(RequireNonNull), [])
    else if o.Present? then
      var other := mapper.value(o.content);
      Applied(if other.Null? then Err(RequireNonNull) else Ok(other.value), [o.content])
    else Applied(Ok(Empty), [])
  }

  /** The total part of `flatMap` used where the mapper can never be or return null. */
  function Bind<T, U>(o: OptionalValue<T>, f: Nullable<T> -> OptionalValue<U>): OptionalValue<U>
  {
    match o
    case Empty => Empty
    case Present(v) => f(v)
  }

  /** `orElse` agrees with `get`: the alternative is used exactly when `get` would throw. */
  lemma OrElseAgreesWithGet<T>(o: OptionalValue<T>, alternative: Nullable<T>)
    ensures Get(o).Ok? ==> OrElse(o, alternative) == Get(o).value
    ensures Get(o).Err? ==> OrElse(o, alternative) == alternative
  {
  }

  /** `map` is `flatMap` through `of`: both agree on result and on the calls made. */
  lemma MapIsFlatMapOfOf<T, U>(o: OptionalValue<T>, f: Nullable<T> -> Nullable<U>)
    ensures Map(o, Val(f)) == FlatMap(o, Val((v: Nullable<T>) => Val(Of(f(v)))))
  {
  }

  /** `of` then `flatMap` hands the value, null included, straight to the mapper, once, and returns what it returns. */
  lemma FlatMapOfIsApply<T, U>(v: Nullable<T>, g: Nullable<T> -> Nullable<OptionalValue<U>>)
    requires g(v).Val?
    ensures FlatMap(Of(v), Val(g)).calls == [v]
    ensures FlatMap(Of(v), Val(g)).result == Ok(g(v).value)
  {
  }

  /** `flatMap` with `of` gives back the same OptionalValue. */
  lemma FlatMapWithOfIsIdentity<T>(o: OptionalValue<T>)
    ensures FlatMap(o, Val((v: Nullable<T>) => Val(Of(v)))).result == Ok(o)
  {
  }

  /** `ofNullable` and `of` agree exactly on non-null values, and differ on null. */
  lemma OfNullableVersusOf<T>(v: Nullable<T>)
    ensures v.Val? <==> OfNullable(v) == Of(v)
  {
  }
}
