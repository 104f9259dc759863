/**
 * Live behaviour of stream graphs without switching (no flatMap, `or` or
 * conditionOn): the values a stream emits when something outside the
 * streams happens, and over a series of happenings.
 */
module Traces {
  import opened Wrappers
  import opened Optionals
  import opened Operators
  import opened Pipeline

  /**
   * Something outside the streams: a cell takes a new value, or a value is
   * pushed into a source. A null pushed into an event source never gets this
   * far, as `EventSource.push` rejects it (`Sources.PushEvent`); an event
   * root here simply forwards no null, so such a happening emits nothing.
   */
  datatype Happening<V> = Happening(at: Input, value: Nullable<V>)

  /** A graph whose every stream has a single source. */
  predicate Linear<V>(n: Node<V>)
    decreases n
  {
    match n
    case Switched(_, _, _, _) => false
    case Conditioned(_, _, _) => false
    case Mapped(_, src, _) => Linear(src)
    case Filtered(_, src, _) => Linear(src)
    case NullsDropped(src) => Linear(src)
    case Peeked(_, src) => Linear(src)
    case Defaulted(src, _) => Linear(src)
    case SkipNulls(src) => Linear(src)
    case _ => true
  }

  predicate IsRoot<V>(n: Node<V>) {
    n.ValueRoot? || n.ChangeRoot? || n.EventRoot? || n.InvalidationRoot?
  }

  /** What a derived stream's handler forwards for one value of its source. */
  function Step<V>(n: Node<V>, x: Nullable<V>): seq<Nullable<V>>
    requires Linear(n) && !IsRoot(n)
  {
    match n
    case Mapped(_, _, op) => MapForward(op, x)
    case Filtered(k, _, t) => if k == EventKind then EventFilterForward(t, x) else ChangeFilterForward(t, x)
    case NullsDropped(_) => FilterNullForward(x)
    case Peeked(_, _) => [x]
    case Defaulted(_, _) => [x]
    case SkipNulls(_) => FilterNullForward(x)
  }

  /** The values forwarded for each value of `s` in turn. */
  function Each<V>(s: seq<Nullable<V>>, step: Nullable<V> -> seq<Nullable<V>>): seq<Nullable<V>>
    decreases |s|
  {
    if s == [] then [] else Each(s[..|s| - 1], step) + step(s[|s| - 1])
  }

  /** A root reacts to a happening at its own input; a root without input never does. */
  predicate Fires(input: Input, at: Input) {
    input != NoInput && input == at
  }

  /** The values a stream emits for one happening, in order. */
  function Emissions<V>(n: Node<V>, h: Happening<V>): seq<Nullable<V>>
    requires Linear(n)
    decreases n, 1
  {
    match n
    case ValueRoot(i, _) => if Fires(i, h.at) then [h.value] else []
    case ChangeRoot(i) => if Fires(i, h.at) then [h.value] else []
    case EventRoot(i) => if Fires(i, h.at) then FilterNullForward(h.value) else []
    case InvalidationRoot(i) => if Fires(i, h.at) then [Null] else []
    case Mapped(_, src, _) => Each(Emissions(src, h), x => Step(n, x))
    case Filtered(_, src, _) => Each(Emissions(src, h), x => Step(n, x))
    case NullsDropped(src) => Each(Emissions(src, h), x => Step(n, x))
    case Peeked(_, src) => Each(Emissions(src, h), x => Step(n, x))
    case Defaulted(src, _) => Each(Emissions(src, h), x => Step(n, x))
    case SkipNulls(src) => Each(Emissions(src, h), x => Step(n, x))
  }

  /** The values a stream emits over a series of happenings. */
  function Trace<V>(n: Node<V>, hs: seq<Happening<V>>): seq<Nullable<V>>
    requires Linear(n)
    decreases |hs|
  {
    if hs == [] then [] else Trace(n, hs[..|hs| - 1]) + Emissions(n, hs[|hs| - 1])
  }

  lemma {:induction false} EachAppend<V>(a: seq<Nullable<V>>, b: seq<Nullable<V>>, step: Nullable<V> -> seq<Nullable<V>>)
    ensures Each(a + b, step) == Each(a, step) + Each(b, step)
    decreases |b|
  {
    if b != [] {
      assert (a + b)[..|a + b| - 1] == a + b[..|b| - 1];
      EachAppend(a, b[..|b| - 1], step);
    } else {
      assert a + b == a;
    }
  }

  /** A derived stream's trace is its handler applied to each value of its source's trace. */
  lemma {:induction false} UnaryTrace<V>(n: Node<V>, hs: seq<Happening<V>>)
    requires Linear(n) && !IsRoot(n)
    ensures Trace(n, hs) == Each(Trace(n.src, hs), x => Step(n, x))
    decreases |hs|
  {
    if hs != [] {
      UnaryTrace(n, hs[..|hs| - 1]);
      EachAppend(Trace(n.src, hs[..|hs| - 1]), Emissions(n.src, hs[|hs| - 1]), x => Step(n, x));
    }
  }

  /** Reference: the sequence with its null entries deleted. */
  function DropNulls<V>(s: seq<Nullable<V>>): seq<Nullable<V>>
    decreases |s|
  {
    if s == [] then [] else (if s[0].Null? then [] else [s[0]]) + DropNulls(s[1..])
  }

  lemma {:induction false} DropNullsAppend<V>(a: seq<Nullable<V>>, b: seq<Nullable<V>>)
    ensures DropNulls(a + b) == DropNulls(a) + DropNulls(b)
    decreases |a|
  {
    if a != [] {
      assert (a + b)[1..] == a[1..] + b;
      DropNullsAppend(a[1..], b);
    } else {
      assert a + b == b;
    }
  }

  lemma {:induction false} EachFilterNull<V>(s: seq<Nullable<V>>, step: Nullable<V> -> seq<Nullable<V>>)
    requires forall x :: step(x) == FilterNullForward(x)
    ensures Each(s, step) == DropNulls(s)
    decreases |s|
  {
    if s != [] {
      var last := s[|s| - 1];
      EachFilterNull(s[..|s| - 1], step);
      DropNullsAppend(s[..|s| - 1], [last]);
      assert s[..|s| - 1] + [last] == s;
    }
  }

  /** `filterNull` emits exactly its source's values with the nulls deleted, in order. */
  lemma FilterNullTrace<V>(src: Node<V>, hs: seq<Happening<V>>)
    requires Linear(src)
    ensures Trace(NullsDropped(src), hs) == DropNulls(Trace(src, hs))
    ensures Null !in Trace(NullsDropped(src), hs)
  {
    UnaryTrace(NullsDropped(src), hs);
    EachFilterNull(Trace(src, hs), x => Step(NullsDropped(src), x));
    DropNullsHasNoNull(Trace(src, hs));
  }

  lemma {:induction false} DropNullsHasNoNull<V>(s: seq<Nullable<V>>)
    ensures Null !in DropNulls(s)
    decreases |s|
  {
    if s != [] {
      DropNullsHasNoNull(s[1..]);
    }
  }

  /** Reference: the sequence with every null replaced by `r`. */
  function ReplaceNulls<V>(s: seq<Nullable<V>>, r: Nullable<V>): seq<Nullable<V>>
    decreases |s|
  {
    if s == [] then [] else ReplaceNulls(s[..|s| - 1], r) + [if s[|s| - 1].Null? then r else s[|s| - 1]]
  }

  lemma {:induction false} EachOrElse<V>(s: seq<Nullable<V>>, r: Nullable<V>, step: Nullable<V> -> seq<Nullable<V>>)
    requires forall x :: step(x) == [if x.Null? then r else x]
    ensures Each(s, step) == ReplaceNulls(s, r)
    decreases |s|
  {
    if s != [] {
      EachOrElse(s[..|s| - 1], r, step);
    }
  }

  /**
   * `orElse`: the stream emits one value per source value, with nulls
   * replaced by the alternative and every other value unchanged.
   */
  lemma OrElseTrace<V>(src: Node<V>, alternative: Nullable<V>, hs: seq<Happening<V>>)
    requires WellFormed(src) && Linear(src) && KindOf(src) in {ValueKind, ChangeKind}
    ensures var n := Derive(src, OrElse(alternative)).value;
            Linear(n) && Trace(n, hs) == ReplaceNulls(Trace(src, hs), alternative)
  {
    var n := Derive(src, OrElse(alternative)).value;
    UnaryTrace(n, hs);
    assert n == Mapped(KindOf(src), src, NullSafe((v: V) => Val(v), alternative));
    forall x: Nullable<V>
      ensures Step(n, x) == [if x.Null? then alternative else x]
    {
      NullSafeForwardsEveryValue((v: V) => Val(v), alternative, x);
    }
    EachOrElse(Trace(src, hs), alternative, x => Step(n, x));
  }

  /** Reference: the entries of `s` that are null or pass the test, in order. */
  function KeepPassing<V>(s: seq<Nullable<V>>, test: Nullable<V> -> bool): seq<Nullable<V>>
    decreases |s|
  {
    if s == [] then [] else KeepPassing(s[..|s| - 1], test) + (if s[|s| - 1].Null? || test(s[|s| - 1]) then [s[|s| - 1]] else [])
  }

  lemma {:induction false} EachChangeFilter<V>(s: seq<Nullable<V>>, test: Nullable<V> -> bool, step: Nullable<V> -> seq<Nullable<V>>)
    requires forall x :: step(x) == ChangeFilterForward(test, x)
    ensures Each(s, step) == KeepPassing(s, test)
    decreases |s|
  {
    if s != [] {
      EachChangeFilter(s[..|s| - 1], test, step);
    }
  }

  /**
   * `filter` over a value or change stream: nulls always pass, other values
   * pass exactly when they match, and order is kept.
   */
  lemma ChangeFilterTrace<V>(src: Node<V>, test: Nullable<V> -> bool, hs: seq<Happening<V>>)
    requires WellFormed(src) && Linear(src) && KindOf(src) in {ValueKind, ChangeKind}
    ensures var n := Derive(src, Filter(Val(test))).value;
            Linear(n) && Trace(n, hs) == KeepPassing(Trace(src, hs), test)
  {
    var n := Derive(src, Filter(Val(test))).value;
    UnaryTrace(n, hs);
    EachChangeFilter(Trace(src, hs), test, x => Step(n, x));
  }

  lemma {:induction false} EachIdentity<V>(s: seq<Nullable<V>>, step: Nullable<V> -> seq<Nullable<V>>)
    requires forall x :: step(x) == [x]
    ensures Each(s, step) == s
    decreases |s|
  {
    if s != [] {
      EachIdentity(s[..|s| - 1], step);
    }
  }

  /**
   * `withDefault`: the new value stream forwards every value of its source
   * unchanged, null included, yet its current value is always the default.
   */
  lemma DefaultTrace<V>(src: Node<V>, d: Nullable<V>, hs: seq<Happening<V>>, w: World<V>)
    requires WellFormed(src) && Linear(src) && KindOf(src) in {ChangeKind, EventKind}
    ensures var n := Derive(src, WithDefaultGet(Val(d))).value;
            Linear(n) && Trace(n, hs) == Trace(src, hs) && InitialValues(n, w) == [d]
  {
    var n := Derive(src, WithDefaultGet(Val(d))).value;
    assert n == Defaulted(src, d);
    UnaryTrace(n, hs);
    EachIdentity(Trace(src, hs), x => Step(n, x));
  }

  /** How often a series of happenings reaches a given input. */
  function Firings<V>(input: Input, hs: seq<Happening<V>>): nat
    decreases |hs|
  {
    if hs == [] then 0 else Firings(input, hs[..|hs| - 1]) + (if Fires(input, hs[|hs| - 1].at) then 1 else 0)
  }

  /** One happening: `replace` emits the supplier's value exactly when the invalidation fires. */
  lemma ReplaceEmissions<V>(i: Input, s: Nullable<V>, h: Happening<V>)
    ensures var n := Mapped(ChangeKind, InvalidationRoot(i), NullSafe((_: V) => s, s));
            Linear(n) && Emissions(n, h) == (if Fires(i, h.at) then [s] else [])
  {
    var n := Mapped(ChangeKind, InvalidationRoot(i), NullSafe((_: V) => s, s));
    if Fires(i, h.at) {
      assert Each([Null], x => Step(n, x)) == Each([], x => Step(n, x)) + Step(n, Null);
    }
  }

  /** `replace` emits the supplier's value once for every invalidation, and nothing to new subscribers. */
  lemma ReplaceTrace<V>(i: Input, s: Nullable<V>, hs: seq<Happening<V>>, w: World<V>)
    ensures var n := Derive(InvalidationRoot(i), Replace(Val(s))).value;
            && Linear(n)
            && Trace(n, hs) == seq(Firings(i, hs), _ => s)
            && InitialValues(n, w) == []
  {
    var n := Derive(InvalidationRoot(i), Replace(Val(s))).value;
    assert n == Mapped(ChangeKind, InvalidationRoot(i), NullSafe((_: V) => s, s));
    ReplaceTraceOf(i, s, hs);
  }

  lemma {:induction false} ReplaceTraceOf<V>(i: Input, s: Nullable<V>, hs: seq<Happening<V>>)
    ensures var n := Mapped(ChangeKind, InvalidationRoot(i), NullSafe((_: V) => s, s));
            Linear(n) && Trace(n, hs) == seq(Firings(i, hs), _ => s)
    decreases |hs|
  {
    if hs != [] {
      var init := hs[..|hs| - 1];
      ReplaceTraceOf(i, s, init);
      ReplaceEmissions(i, s, hs[|hs| - 1]);
      assert seq(Firings(i, init), _ => s) + [s] == seq(Firings(i, init) + 1, _ => s);
    }
  }

  lemma {:induction false} EachNoNull<V>(s: seq<Nullable<V>>, step: Nullable<V> -> seq<Nullable<V>>)
    requires forall i :: 0 <= i < |s| ==> Null !in step(s[i])
    ensures Null !in Each(s, step)
    decreases |s|
  {
    if s != [] {
      EachNoNull(s[..|s| - 1], step);
    }
  }

  /** Event streams never emit null. */
  lemma {:induction false} EventsAreNeverNull<V>(n: Node<V>, h: Happening<V>)
    requires WellFormed(n) && Linear(n) && KindOf(n) == EventKind
    ensures Null !in Emissions(n, h)
    decreases n
  {
    match n
    case EventRoot(_) =>
    case Mapped(_, src, op) =>
      forall i | 0 <= i < |Emissions(src, h)|
        ensures Null !in Step(n, Emissions(src, h)[i])
      {
        NullRejectingDropsNulls(op.convert, Emissions(src, h)[i]);
      }
      EachNoNull(Emissions(src, h), x => Step(n, x));
    case Filtered(_, src, _) =>
      EventsAreNeverNull(src, h);
      EachNoNull(Emissions(src, h), x => Step(n, x));
    case NullsDropped(src) =>
      EachNoNull(Emissions(src, h), x => Step(n, x));
    case Peeked(_, src) =>
      EventsAreNeverNull(src, h);
      EachNoNull(Emissions(src, h), x => Step(n, x));
  }

  /** A value stream that follows a cell: the cell's root value stream with maps and peeks applied. */
  predicate FollowsCell<V>(n: Node<V>, c: nat)
    decreases n
  {
    match n
    case ValueRoot(i, s) => i == Cell(c) && s == ReadsCell(c)
    case Mapped(ValueKind, src, _) => FollowsCell(src, c)
    case Peeked(ValueKind, src) => FollowsCell(src, c)
    case _ => false
  }

  /** The world after cell `c` takes value `x`. */
  function SetCell<V>(w: World<V>, c: nat, x: Nullable<V>): (w': World<V>)
    ensures w'.cells(c) == x && w'.conditions == w.conditions
  {
    w.(cells := (i: nat) => if i == c then x else w.cells(i))
  }

  /**
   * A value stream following a cell emits, when the cell changes, exactly the
   * current value a new subscriber would receive right after the change.
   */
  lemma {:induction false} EmitsCurrentValue<V>(n: Node<V>, c: nat, x: Nullable<V>, w: World<V>)
    requires WellFormed(n) && FollowsCell(n, c)
    ensures Linear(n)
    ensures Emissions(n, Happening(Cell(c), x)) == InitialValues(n, SetCell(w, c, x))
    decreases n
  {
    match n
    case ValueRoot(_, _) =>
    case Mapped(_, src, _) =>
      EmitsCurrentValue(src, c, x, w);
      MappedEmitsCurrent(n, Happening(Cell(c), x), SetCell(w, c, x));
    case Peeked(_, src) =>
      EmitsCurrentValue(src, c, x, w);
      PeekedEmitsCurrent(n, Happening(Cell(c), x), SetCell(w, c, x));
  }

  /** A map over a value stream whose emissions are its current value emits its own current value. */
  lemma MappedEmitsCurrent<V>(n: Node<V>, h: Happening<V>, w: World<V>)
    requires WellFormed(n) && n.Mapped? && n.kind == ValueKind && Linear(n.src)
    requires Emissions(n.src, h) == InitialValues(n.src, w)
    ensures Linear(n) && Emissions(n, h) == InitialValues(n, w)
  {
    var e := Emissions(n.src, h);
    if e != [] {
      assert e == [e[0]];
      CurrentValueAgreesWithForwarding(n.op, e[0]);
      assert Each(e, y => Step(n, y)) == Each([], y => Step(n, y)) + Step(n, e[0]);
    }
  }

  /** A peek over a value stream whose emissions are its current value emits its own current value. */
  lemma PeekedEmitsCurrent<V>(n: Node<V>, h: Happening<V>, w: World<V>)
    requires WellFormed(n) && n.Peeked? && n.kind == ValueKind && Linear(n.src)
    requires Emissions(n.src, h) == InitialValues(n.src, w)
    ensures Linear(n) && Emissions(n, h) == InitialValues(n, w)
  {
    var e := Emissions(n.src, h);
    if e != [] {
      assert e == [e[0]];
      assert Each(e, y => Step(n, y)) == Each([], y => Step(n, y)) + Step(n, e[0]);
    }
  }

  /**
   * The current value is not the last value emitted: over a filtered value
   * stream given the default "X", the map `v + "Y"` has current value "XY"
   * whatever the cell holds and whatever the filter accepts.
   */
  lemma CurrentValueRestartsAtDefault(test: Nullable<string> -> bool, w: World<string>)
    ensures var root := ValueRoot(Cell(0), ReadsCell(0));
            var filtered := Derive(root, Filter(Val(test))).value;
            var defaulted := Derive(filtered, WithDefault(Val("X"))).value;
            var mapped := Derive(defaulted, Map(Val((v: string) => Val(v + "Y")))).value;
            CurrentValue(mapped, w) == Present(Val("XY"))
  {
    var root := ValueRoot(Cell(0), ReadsCell(0));
    var filtered := Derive(root, Filter(Val(test))).value;
    assert filtered == Filtered(ChangeKind, root, test);
    var defaulted := Derive(filtered, WithDefault(Val("X"))).value;
    assert defaulted == Defaulted(filtered, Val("X"));
    assert CurrentValue(defaulted, w) == Present(Val("X"));
    var f := (v: string) => Val(v + "Y");
    var mapped := Derive(defaulted, Map(Val(f))).value;
    assert mapped == Mapped(ValueKind, defaulted, NullSafe(f, Null));
    assert "X" + "Y" == "XY";
  }

  /**
   * Activating a `peek` over a value stream: the side effect sees the
   * source's current value once, through the source's handing it to the new
   * subscription, and the new subscriber receives that same value, which
   * the side effect does not see again. Other kinds do neither.
   */
  function PeekActivation<V>(n: Node<V>, w: World<V>): (r: (seq<Nullable<V>>, seq<Nullable<V>>))
    requires WellFormed(n) && n.Peeked?
    ensures r.1 == InitialValues(n, w)
    ensures r.0 == r.1
    ensures n.kind != ValueKind ==> r.0 == []
  {
    var effects := InitialValues(n.src, w);
    (effects, effects)
  }
}
