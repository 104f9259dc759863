/**
 * Emission over the observer registry of a stream, with observers that
 * register or unregister observers of the same stream while they are being
 * called. Every observer registered when the emission starts is called
 * exactly once, in order, whatever the callbacks do to the registry, and the
 * registry afterwards reflects every change the callbacks made.
 */
module Emission {
  import opened Wrappers
  import opened ListHelper

  /** A registry change made by a callback: `addObserver` or `removeObserver` on the emitting stream. */
  datatype Op<T> = Register(observer: T) | Unregister(observer: T)

  /** The elements after one change, by the reference semantics of a list. */
  function ApplyOp<T(==)>(s: seq<T>, op: Op<T>): seq<T> {
    match op
    case Register(x) => s + [x]
    case Unregister(x) => RemoveFirst(s, x)
  }

  /** The elements after a series of changes, applied in order. */
  function ApplyAll<T(==)>(s: seq<T>, ops: seq<Op<T>>): seq<T>
    decreases |ops|
  {
    if ops == [] then s else ApplyOp(ApplyAll(s, ops[..|ops| - 1]), ops[|ops| - 1])
  }

  /** The changes made while calling the given observers in order. */
  function ReactionsOf<T>(reactions: T -> seq<Op<T>>, called: seq<T>): seq<Op<T>>
    decreases |called|
  {
    if called == [] then [] else ReactionsOf(reactions, called[..|called| - 1]) + reactions(called[|called| - 1])
  }

  /**
   * The state during an emission: the registry field, the object being
   * traversed, and whether the field still refers to that object.
   */
  predicate Coherent<T(==)>(registry: Helper<T>, trav: Helper<T>, shared: bool) {
    && Valid(registry)
    && (shared ==> registry == trav)
  }

  /** Performs the registry changes one callback makes, one `add` or `remove` at a time. */
  method ApplyOps<T(==)>(registry0: Helper<T>, trav0: Helper<T>, shared0: bool, ops: seq<Op<T>>)
    returns (registry: Helper<T>, trav: Helper<T>, shared: bool)
    requires Coherent(registry0, trav0, shared0)
    ensures Coherent(registry, trav, shared)
    ensures Elements(registry) == ApplyAll(Elements(registry0), ops)
    ensures shared ==> shared0
    ensures trav0.Multi? && trav0.iterating > 0 ==> trav == trav0
    ensures !shared0 ==> trav == trav0
    ensures trav.Multi? == trav0.Multi?
    ensures trav.Multi? ==> trav.iterating == trav0.iterating
    ensures !trav0.Multi? ==> trav == trav0
  {
    registry, trav, shared := registry0, trav0, shared0;
    var j := 0;
    while j < |ops|
      invariant 0 <= j <= |ops|
      invariant Coherent(registry, trav, shared)
      invariant Elements(registry) == ApplyAll(Elements(registry0), ops[..j])
      invariant shared ==> shared0
      invariant trav0.Multi? && trav0.iterating > 0 ==> trav == trav0
      invariant !shared0 ==> trav == trav0
      invariant trav.Multi? == trav0.Multi?
      invariant trav.Multi? ==> trav.iterating == trav0.iterating
      invariant !trav0.Multi? ==> trav == trav0
    {
      var u := match ops[j]
        case Register(x) => Add(registry, x)
        case Unregister(x) => Remove(registry, x);
      if shared {
        if u.inPlace {
          trav := u.result;
        } else {
          shared := false;
        }
      }
      registry := u.result;
      assert ops[..j + 1][..j] == ops[..j];
      j := j + 1;
    }
    assert ops[..j] == ops;
  }

  /**
   * Calls observer `x` during a traversal of `origin`, after the observers
   * `called`: its changes are applied to the registry one at a time.
   */
  method CallObserver<T(==)>(origin: seq<T>, called: seq<T>, x: T, reactions: T -> seq<Op<T>>,
                             registry0: Helper<T>, trav0: Helper<T>, shared0: bool)
    returns (registry: Helper<T>, trav: Helper<T>, shared: bool)
    requires Coherent(registry0, trav0, shared0)
    requires Elements(registry0) == ApplyAll(origin, ReactionsOf(reactions, called))
    ensures Coherent(registry, trav, shared)
    ensures Elements(registry) == ApplyAll(origin, ReactionsOf(reactions, called + [x]))
    ensures trav0.Multi? && trav0.iterating > 0 ==> trav == trav0
    ensures !trav0.Multi? ==> trav == trav0
    ensures trav.Multi? == trav0.Multi?
    ensures trav.Multi? ==> trav.iterating == trav0.iterating
  {
    registry, trav, shared := ApplyOps(registry0, trav0, shared0, reactions(x));
    assert (called + [x])[..|called + [x]| - 1] == called;
    ApplyAllAppend(origin, ReactionsOf(reactions, called), reactions(x));
  }

  /**
   * The loop of `emit`: an iterator over the registry hands out observers
   * until `stop` of them have been called; the callback of observer `x` makes
   * the changes `reactions(x)`. Returns the observers called, the registry
   * afterwards, and the state afterwards of the object traversed, which is
   * counted as under iteration until the last observer is handed out.
   */
  method Walk<T(==)>(h: Helper<T>, reactions: T -> seq<Op<T>>, stop: nat)
    returns (called: seq<T>, registry: Helper<T>, traversed: Helper<T>)
    requires Valid(h) && stop <= Size(h)
    ensures called == Elements(h)[..stop]
    ensures Valid(registry)
    ensures Elements(registry) == ApplyAll(Elements(h), ReactionsOf(reactions, called))
    ensures traversed.Multi? == h.Multi?
    ensures traversed.Multi? ==> traversed.iterating == (if stop < Size(h) then h.iterating + 1 else h.iterating)
  {
    var start := Iterator(h);
    var c := start.1;
    var trav := start.0;
    registry := trav;
    var shared := true;
    called := [];
    while c.next < stop
      invariant c.to == Size(h) && c.next <= stop
      invariant called == Elements(h)[..c.next]
      invariant Coherent(registry, trav, shared)
      invariant HasNext(c) ==> Elements(trav) == Elements(h)
      invariant trav.Multi? == h.Multi?
      invariant trav.Multi? ==> trav.iterating == (if HasNext(c) then h.iterating + 1 else h.iterating)
      invariant Elements(registry) == ApplyAll(Elements(h), ReactionsOf(reactions, called))
      decreases stop - c.next
    {
      var r := Next(trav, c);
      var x := r.value.0;
      TakeOneMore(Elements(h), c.next);
      trav, c := r.value.1, r.value.2;
      if shared {
        registry := trav;
      }
      registry, trav, shared := CallObserver(Elements(h), called, x, reactions, registry, trav, shared);
      called := called + [x];
    }
    traversed := trav;
  }

  /**
   * `emit` with observers that may throw: the observer at position
   * `throwsAt`, if any, throws once it has made its changes, which ends the
   * emission. Returns the observers called, whether one threw, the registry
   * afterwards, and the state afterwards of the object traversed. The
   * iterator stops counting its iteration only as it hands out the last
   * observer, so a throw before that leaves the list counted as under
   * iteration: it stays copy-on-write from then on.
   */
  method Traverse<T(==)>(h: Helper<T>, reactions: T -> seq<Op<T>>, throwsAt: Option<nat>)
    returns (called: seq<T>, threw: bool, registry: Helper<T>, traversed: Helper<T>)
    requires Valid(h)
    ensures threw <==> throwsAt.Some? && throwsAt.value < Size(h)
    ensures called == if threw then Elements(h)[..throwsAt.value + 1] else Elements(h)
    ensures Valid(registry)
    ensures Elements(registry) == ApplyAll(Elements(h), ReactionsOf(reactions, called))
    ensures traversed.Multi? == h.Multi?
    ensures traversed.Multi? ==> traversed.iterating == (if |called| < Size(h) then h.iterating + 1 else h.iterating)
  {
    threw := throwsAt.Some? && throwsAt.value < Size(h);
    var stop := if threw then throwsAt.value + 1 else Size(h);
    called, registry, traversed := Walk(h, reactions, stop);
    if !threw {
      TakeAll(Elements(h), stop);
    }
  }

  /**
   * Instance `forEach`, with the same consumer model as `Traverse`. A
   * list-backed helper counts the iteration while the consumer runs, so every
   * change the consumer makes copies the list, and the `finally` block stops
   * counting it whether or not the consumer throws: the traversed object ends
   * as it started.
   */
  method ForEach<T(==)>(h: Helper<T>, reactions: T -> seq<Op<T>>, throwsAt: Option<nat>)
    returns (called: seq<T>, threw: bool, registry: Helper<T>, traversed: Helper<T>)
    requires Valid(h)
    ensures threw <==> throwsAt.Some? && throwsAt.value < Size(h)
    ensures called == if threw then Elements(h)[..throwsAt.value + 1] else Elements(h)
    ensures Valid(registry)
    ensures Elements(registry) == ApplyAll(Elements(h), ReactionsOf(reactions, called))
    ensures traversed == h
  {
    var es := Elements(h);
    threw := throwsAt.Some? && throwsAt.value < |es|;
    var stop := if threw then throwsAt.value + 1 else |es|;
    var trav := if h.Multi? then h.(iterating := h.iterating + 1) else h;
    registry := trav;
    var shared := true;
    called := [];
    var i := 0;
    while i < stop
      invariant i <= stop <= |es|
      invariant called == es[..i]
      invariant Coherent(registry, trav, shared)
      invariant h.Multi? ==> trav == h.(iterating := h.iterating + 1)
      invariant !h.Multi? ==> trav == h
      invariant Elements(registry) == ApplyAll(es, ReactionsOf(reactions, called))
    {
      var x := es[i];
      TakeOneMore(es, i);
      registry, trav, shared := CallObserver(es, called, x, reactions, registry, trav, shared);
      called := called + [x];
      i := i + 1;
    }
    if !threw {
      TakeAll(es, i);
    }
    traversed := if trav.Multi? then trav.(iterating := trav.iterating - 1) else trav;
  }

  lemma TakeOneMore<T>(s: seq<T>, n: nat)
    requires n < |s|
    ensures s[..n + 1] == s[..n] + [s[n]]
  {
  }

  lemma TakeAll<T>(s: seq<T>, n: nat)
    requires n == |s|
    ensures s[..n] == s
  {
  }

  /** Changes applied in two batches equal the same changes applied in one. */
  lemma {:induction false} ApplyAllAppend<T>(s: seq<T>, a: seq<Op<T>>, b: seq<Op<T>>)
    ensures ApplyAll(s, a + b) == ApplyAll(ApplyAll(s, a), b)
    decreases |b|
  {
    if b == [] {
      assert a + b == a;
    } else {
      assert (a + b)[..|a + b| - 1] == a + b[..|b| - 1];
      ApplyAllAppend(s, a, b[..|b| - 1]);
    }
  }

  /** The changes made while calling `a` and then `b` are those of `a` followed by those of `b`. */
  lemma {:induction false} ReactionsOfAppend<T>(reactions: T -> seq<Op<T>>, a: seq<T>, b: seq<T>)
    ensures ReactionsOf(reactions, a + b) == ReactionsOf(reactions, a) + ReactionsOf(reactions, b)
    decreases |b|
  {
    if b == [] {
      assert a + b == a;
    } else {
      assert (a + b)[..|a + b| - 1] == a + b[..|b| - 1];
      ReactionsOfAppend(reactions, a, b[..|b| - 1]);
    }
  }

  /** Observers that change nothing make no changes. */
  lemma {:induction false} NoReactions<T>(reactions: T -> seq<Op<T>>, called: seq<T>)
    requires forall i :: 0 <= i < |called| ==> reactions(called[i]) == []
    ensures ReactionsOf(reactions, called) == []
    decreases |called|
  {
    if called != [] {
      NoReactions(reactions, called[..|called| - 1]);
    }
  }

  /**
   * An observer `x` registered once, which removes itself while being
   * called, among observers that change nothing: the emission makes exactly
   * that one change, and afterwards the registry is the old one without `x`
   * (while `Traverse` still calls `x` in that emission).
   */
  lemma SelfRemovalDuringEmission<T>(before: seq<T>, x: T, after: seq<T>)
    requires x !in before && x !in after
    ensures var observers := before + [x] + after;
            var reactions := (y: T) => if y == x then [Unregister(x)] else [];
            && ReactionsOf(reactions, observers) == [Unregister(x)]
            && ApplyAll(observers, ReactionsOf(reactions, observers)) == before + after
            && ApplyAll(observers, ReactionsOf(reactions, observers)) == RemoveFirst(observers, x)
  {
    var reactions := (y: T) => if y == x then [Unregister(x)] else [];
    NoReactions(reactions, before);
    NoReactions(reactions, after);
    ReactionsOfAppend(reactions, before, [x]);
    ReactionsOfAppend(reactions, before + [x], after);
    assert ReactionsOf(reactions, [x]) == ReactionsOf(reactions, []) + [Unregister(x)];
    assert ApplyAll(before + [x] + after, [Unregister(x)]) == ApplyOp(before + [x] + after, Unregister(x));
    RemoveFirstPastPrefix(before, after, x);
  }
}
