/**
 * Stream graphs as built by the stream API: a tree of nodes whose leaves are
 * root streams and whose inner nodes are the derived streams the API
 * methods create. Gives the kind of every stream, the current value a value
 * stream hands new subscribers, and the API methods themselves.
 */
module Pipeline {
  import opened Wrappers
  import opened Optionals
  import opened Operators

  /** The four stream types of the API. */
  datatype Kind = EventKind | ChangeKind | ValueKind | InvalidationKind

  /**
   * What a root stream listens to: an observable value (a cell, identified by
   * number, which reports each new value), a source the program pushes
   * values into, or nothing at all.
   */
  datatype Input = Cell(cell: nat) | Pushed(source: nat) | NoInput

  /** The supplier of a root value stream's current value. */
  datatype Supplier<V> = NoSupplier | ReadsCell(cell: nat) | Constant(value: Nullable<V>)

  datatype Node<!V> =
    | ValueRoot(input: Input, supplier: Supplier<V>)          // a root value stream
    | ChangeRoot(input: Input)                                // a root change stream or a change source
    | EventRoot(input: Input)                                 // a root event stream or an event source; never forwards null
    | InvalidationRoot(input: Input)                          // reports each invalidation as null
    | Mapped(kind: Kind, src: Node<V>, op: Operator<V>)       // map, orElseGet, replace
    | Filtered(kind: Kind, src: Node<V>, test: Nullable<V> -> bool)
    | NullsDropped(src: Node<V>)                              // filterNull
    | Peeked(kind: Kind, src: Node<V>)                        // peek
    | Defaulted(src: Node<V>, defaultValue: Nullable<V>)           // withDefaultGet: promotion to a value stream
    | SkipNulls(src: Node<V>)                                 // the private skipNulls stream of `or`
    | Switched(kind: Kind, src: Node<V>, select: Nullable<V> -> Nullable<nat>, inners: seq<Node<V>>)
                                                              // flatMap: `select` names the inner stream for a source value;
                                                              // null, or a number naming no stream, is the null stream
    | Conditioned(kind: Kind, src: Node<V>, condition: nat)   // conditionOn a boolean observable

  /** The state of the observable values: ordinary cells and boolean condition cells. */
  datatype World<!V> = World(cells: nat -> Nullable<V>, conditions: nat -> Nullable<bool>)

  function KindOf<V>(n: Node<V>): Kind {
    match n
    case ValueRoot(_, _) => ValueKind
    case ChangeRoot(_) => ChangeKind
    case EventRoot(_) => EventKind
    case InvalidationRoot(_) => InvalidationKind
    case Mapped(k, _, _) => k
    case Filtered(k, _, _) => k
    case NullsDropped(_) => EventKind
    case Peeked(k, _) => k
    case Defaulted(_, _) => ValueKind
    case SkipNulls(_) => ValueKind
    case Switched(k, _, _, _) => k
    case Conditioned(k, _, _) => k
  }

  /** The node shapes the API methods build, each over a source of the kind that offers the method. */
  ghost predicate WellFormed<V>(n: Node<V>)
    decreases n
  {
    match n
    case ValueRoot(_, _) => true
    case ChangeRoot(_) => true
    case EventRoot(_) => true
    case InvalidationRoot(_) => true
    case Mapped(k, src, op) =>
      && WellFormed(src)
      && ((k == ValueKind && KindOf(src) == ValueKind && op.NullSafe?)
          || (k == ChangeKind && KindOf(src) in {ChangeKind, InvalidationKind} && op.NullSafe?)
          || (k == EventKind && KindOf(src) == EventKind && op.NullRejecting?))
    case Filtered(k, src, _) =>
      && WellFormed(src)
      && ((k == ChangeKind && KindOf(src) in {ValueKind, ChangeKind}) || (k == EventKind && KindOf(src) == EventKind))
    case NullsDropped(src) => WellFormed(src) && KindOf(src) in {ValueKind, ChangeKind}
    case Peeked(k, src) => WellFormed(src) && KindOf(src) == k && k != InvalidationKind
    case Defaulted(src, _) => WellFormed(src) && KindOf(src) in {ChangeKind, EventKind, InvalidationKind}
    case SkipNulls(src) => WellFormed(src) && KindOf(src) == ValueKind
    case Switched(k, src, select, inners) =>
      && WellFormed(src)
      && ((k in {ValueKind, ChangeKind} && KindOf(src) == ValueKind) || (k != ValueKind && k != InvalidationKind && KindOf(src) == k))
      && (forall i :: 0 <= i < |inners| ==> WellFormed(inners[i]) && KindOf(inners[i]) == k)
    case Conditioned(k, src, _) => WellFormed(src) && KindOf(src) == k && k != InvalidationKind
  }

  /**
   * The current value a stream hands each new subscriber. Only value streams
   * have one; for them it is the operator applied to the source's current
   * value, or, for a stream without a source, the operator applied to null.
   */
  function CurrentValue<V>(n: Node<V>, w: World<V>): (r: OptionalValue<V>)
    requires WellFormed(n)
    ensures KindOf(n) != ValueKind ==> r == Empty
    decreases n
  {
    match n
    case ValueRoot(_, supplier) =>
      (match supplier
       case NoSupplier => Operate(Nothing, Null)
       case ReadsCell(c) => Operate(Supplies(w.cells(c)), Null)
       case Constant(x) => Operate(Supplies(x), Null))
    case Mapped(ValueKind, src, op) => Bind(CurrentValue(src, w), (x: Nullable<V>) => Operate(op, x))
    case Peeked(ValueKind, src) => Bind(CurrentValue(src, w), (x: Nullable<V>) => Operate(Pass, x))
    case SkipNulls(src) => Bind(CurrentValue(src, w), (x: Nullable<V>) => Operate(Pass, x))
    case Defaulted(_, d) => Operate(Supplies(d), Null)
    case Switched(ValueKind, src, select, inners) =>
      (match CurrentValue(src, w)
       case Empty => Empty
       case Present(x) =>
         var k := select(x);
         if k.Null? || k.value >= |inners| then Empty else CurrentValue(inners[k.value], w))
    case Conditioned(ValueKind, src, c) =>
      if w.conditions(c) == Val(true) then CurrentValue(src, w) else Empty
    case _ => Empty
  }

  /** The values a new subscriber receives before anything changes. */
  function InitialValues<V>(n: Node<V>, w: World<V>): (r: seq<Nullable<V>>)
    requires WellFormed(n)
    ensures |r| <= 1
    ensures KindOf(n) != ValueKind ==> r == []
    ensures r != [] ==> CurrentValue(n, w) == Present(r[0])
    ensures IsPresent(CurrentValue(n, w)) ==> r == [CurrentValue(n, w).content]
  {
    Delivered(CurrentValue(n, w))
  }

  /** The API methods, with their arguments as given (null included). */
  datatype Call<!V> =
    | Filter(test: Nullable<Nullable<V> -> bool>)
    | FilterNull
    | Map(mapper: Nullable<V -> Nullable<V>>)
    | FlatMap(flatMapper: Nullable<V -> Nullable<nat>>, streams: seq<Node<V>>)  // the mapper names one of `streams`, or null
    | FlatMapToChange(toChange: Nullable<V -> Nullable<nat>>, changeStreams: seq<Node<V>>)
    | Peek(sideEffect: Nullable<SideEffect<V>>)
    | OrElse(alternative: Nullable<V>)
    | OrElseGet(alternativeSupplier: Nullable<Nullable<V>>)
    | Or(fallbackSupplier: Nullable<Node<V>>)    // a supplier that returns one fixed stream
    | ConditionOn(condition: Nullable<nat>)
    | WithDefault(defaultValue: Nullable<V>)
    | WithDefaultGet(defaultSupplier: Nullable<Nullable<V>>)
    | Replace(replacementSupplier: Nullable<Nullable<V>>)
    | WithDefaultVoid

  /** Which methods each stream type offers. */
  predicate Offers<V>(k: Kind, call: Call<V>) {
    match k
    case ValueKind =>
      call.Filter? || call.FilterNull? || call.Map? || call.FlatMap? || call.FlatMapToChange? || call.Peek?
      || call.OrElse? || call.OrElseGet? || call.Or? || call.ConditionOn?
    case ChangeKind =>
      call.Filter? || call.FilterNull? || call.Map? || call.FlatMap? || call.Peek? || call.OrElse?
      || call.OrElseGet? || call.ConditionOn? || call.WithDefault? || call.WithDefaultGet?
    case EventKind =>
      call.Filter? || call.Map? || call.FlatMap? || call.Peek? || call.ConditionOn? || call.WithDefaultGet?
    case InvalidationKind => call.Replace? || call.WithDefaultVoid?
  }

  /** The declared return type of each method of each stream type. */
  function ResultKind<V>(k: Kind, call: Call<V>): Kind
    requires Offers(k, call)
  {
    match call
    case Filter(_) => if k == EventKind then EventKind else ChangeKind
    case FilterNull => EventKind
    case FlatMapToChange(_, _) => ChangeKind
    case OrElse(_) => k
    case OrElseGet(_) => k
    case WithDefault(_) => ValueKind
    case WithDefaultGet(_) => ValueKind
    case WithDefaultVoid => ValueKind
    case Replace(_) => ChangeKind
    case _ => k
  }

  /** The arguments the method rejects with NullPointerException when null. */
  predicate HasNullArgument<V>(call: Call<V>) {
    match call
    case Filter(p) => p.Null?
    case Map(f) => f.Null?
    case FlatMap(f, _) => f.Null?
    case FlatMapToChange(f, _) => f.Null?
    case Peek(e) => e.Null?
    case OrElseGet(s) => s.Null?
    case Or(s) => s.Null?
    case ConditionOn(c) => c.Null?
    case WithDefaultGet(s) => s.Null?
    case Replace(s) => s.Null?
    case _ => false
  }

  /** The streams a call's mapper may name exist and have the kind the method expects. */
  ghost predicate Fits<V>(k: Kind, call: Call<V>) {
    match call
    case FlatMap(f, streams) =>
      && (forall i :: 0 <= i < |streams| ==> WellFormed(streams[i]) && KindOf(streams[i]) == k)
    case FlatMapToChange(f, streams) =>
      && (forall i :: 0 <= i < |streams| ==> WellFormed(streams[i]) && KindOf(streams[i]) == ChangeKind)
    case Or(s) => s.Val? ==> WellFormed(s.value) && KindOf(s.value) == ValueKind
    case _ => true
  }

  /** The mapper of a flatMap, made total: null never reaches it and goes to the null replacement instead. */
  function FlatMapper<V>(mapper: V -> Nullable<nat>, nullReplacement: Nullable<nat>): (select: Nullable<V> -> Nullable<nat>)
    ensures select(Null) == nullReplacement
  {
    (x: Nullable<V>) => if x.Null? then nullReplacement else mapper(x.value)
  }

  /** Non-null values reach the mapper unchanged. */
  lemma FlatMapperPassesValues<V>(mapper: V -> Nullable<nat>, nullReplacement: Nullable<nat>, v: V)
    ensures FlatMapper(mapper, nullReplacement)(Val(v)) == mapper(v)
  {
  }

  /** The methods whose stream switches between inner streams: `flatMap`, `flatMapToChange` and `or`. */
  predicate Switches<V>(call: Call<V>) {
    call.FlatMap? || call.FlatMapToChange? || call.Or?
  }

  /** The stream a switching method builds, with its null replacement as an extra inner stream where it has one. */
  function DeriveSwitched<V>(src: Node<V>, call: Call<V>): (n: Node<V>)
    requires WellFormed(src) && Offers(KindOf(src), call) && Fits(KindOf(src), call)
    requires Switches(call) && !HasNullArgument(call)
    ensures WellFormed(n) && KindOf(n) == ResultKind(KindOf(src), call)
  {
    var k := KindOf(src);
    match call
    case FlatMap(f, streams) =>
      if k == ValueKind then
        var inners := streams + [ValueRoot(NoInput, Constant(Null))];
        assert forall i :: 0 <= i < |streams| ==> inners[i] == streams[i];
        Switched(k, src, FlatMapper(f.value, Val(|streams|)), inners)
      else Switched(k, src, FlatMapper(f.value, Null), streams)
    case FlatMapToChange(f, streams) =>
      assert k == ValueKind;
      var inners := streams + [ChangeRoot(NoInput)];
      assert forall i :: 0 <= i < |streams| ==> inners[i] == streams[i];
      assert WellFormed(inners[|streams|]) && KindOf(inners[|streams|]) == ChangeKind;
      Switched(ChangeKind, src, FlatMapper(f.value, Val(|streams|)), inners)
    case Or(s) =>
      assert k == ValueKind && WellFormed(SkipNulls(src));
      Switched(ValueKind, src, FlatMapper((_: V) => Val(0), Val(1)), [SkipNulls(src), s.value])
  }

  /** The stream every other method builds over its source. */
  function DeriveDirect<V>(src: Node<V>, call: Call<V>): (n: Node<V>)
    requires WellFormed(src) && Offers(KindOf(src), call)
    requires !Switches(call) && !HasNullArgument(call)
    ensures WellFormed(n) && KindOf(n) == ResultKind(KindOf(src), call)
  {
    var k := KindOf(src);
    match call
    case Filter(p) => Filtered(if k == EventKind then EventKind else ChangeKind, src, p.value)
    case FilterNull => NullsDropped(src)
    case Map(f) =>
      if k == EventKind then Mapped(EventKind, src, NullRejecting((x: Nullable<V>) => if x.Val? then f.value(x.value) else Null))
      else Mapped(k, src, NullSafe(f.value, Null))
    case Peek(_) => Peeked(k, src)
    case OrElse(x) => Mapped(k, src, NullSafe((v: V) => Val(v), x))
    case OrElseGet(s) => Mapped(k, src, NullSafe((v: V) => Val(v), s.value))
    case ConditionOn(c) => Conditioned(k, src, c.value)
    case WithDefault(x) => Defaulted(src, x)
    case WithDefaultGet(s) => Defaulted(src, s.value)
    case Replace(s) => Mapped(ChangeKind, src, NullSafe((_: V) => s.value, s.value))
    case WithDefaultVoid => Defaulted(src, Null)
  }

  /**
   * Applies an API method to a stream: the stream it returns, or the
   * NullPointerException for a null argument. The result has the declared
   * return type and is again a stream the API can build.
   */
  function Derive<V>(src: Node<V>, call: Call<V>): (r: Result<Node<V>>)
    requires WellFormed(src) && Offers(KindOf(src), call) && Fits(KindOf(src), call)
    ensures r.Err? <==> HasNullArgument(call)
    ensures r.Err? ==> r.error == RequireNonNull
    ensures r.Ok? ==> WellFormed(r.value) && KindOf(r.value) == ResultKind(KindOf(src), call)
  {
    if HasNullArgument(call) then Err(RequireNonNull)
    else if Switches(call) then Ok(DeriveSwitched(src, call))
    else Ok(DeriveDirect(src, call))
  }
}
