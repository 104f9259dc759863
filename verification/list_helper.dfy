/**
 * ListHelper: the copy-on-write observer registry. A registry is absent (no
 * observers), a single element, or a shared mutable list that carries a count
 * of the iterations running over it; while that count is positive the list is
 * never changed in place, so a running iteration sees the list it started with.
 */
module ListHelper {
  import opened Wrappers

  datatype Helper<T> = Absent | Single(elem: T) | Multi(elems: seq<T>, iterating: nat)

  /** A list-backed helper always holds at least two elements; smaller registries use the other shapes. */
  predicate Valid<T>(h: Helper<T>) {
    h.Multi? ==> |h.elems| >= 2
  }

  /** The registered elements, in registration order. */
  function Elements<T>(h: Helper<T>): seq<T> {
    match h
    case Absent => []
    case Single(e) => [e]
    case Multi(es, _) => es
  }

  /**
   * The effect of a mutating call. `result` is what the call returns (the
   * registry's new value), `receiver` is the state afterwards of the object
   * the call was made on, and `inPlace` says whether `result` is that same
   * object (so that both names now see the same state).
   */
  datatype Update<T> = Update(result: Helper<T>, receiver: Helper<T>, inPlace: bool)

  /**
   * The copy-on-write discipline: an object under iteration is never changed,
   * an object that is not returned keeps its state, and one that is returned
   * is the one whose state changed.
   */
  predicate CopyOnWrite<T(==)>(h: Helper<T>, u: Update<T>) {
    && (h.Multi? && h.iterating > 0 ==> u.receiver == h)
    && (!u.inPlace ==> u.receiver == h)
    && (u.inPlace ==> u.receiver == u.result)
  }

  /** Reference definition of `List.remove(Object)`: drops the first element equal to `e`, if any. */
  function RemoveFirst<T(==)>(s: seq<T>, e: T): seq<T> {
    if s == [] then []
    else if s[0] == e then s[1..]
    else [s[0]] + RemoveFirst(s[1..], e)
  }

  /** `List.indexOf`: the position of the first element equal to `e`, or -1. */
  function IndexOf<T(==)>(s: seq<T>, e: T): (r: int)
    ensures r == -1 <==> e !in s
    ensures r != -1 ==> 0 <= r < |s| && s[r] == e && e !in s[..r]
  {
    if s == [] then -1
    else if s[0] == e then 0
    else
      var k := IndexOf(s[1..], e);
      assert s[1..][..(if k == -1 then 0 else k)] == s[1..(if k == -1 then 1 else k + 1)];
      if k == -1 then -1 else k + 1
  }

  /** Removing the element at the first match is `RemoveFirst`. */
  lemma {:induction false} RemoveAtIndexOf<T>(s: seq<T>, e: T)
    requires e in s
    ensures s[..IndexOf(s, e)] + s[IndexOf(s, e) + 1..] == RemoveFirst(s, e)
    decreases |s|
  {
    var i := IndexOf(s, e);
    if s[0] == e {
      assert i == 0;
      assert s[..0] + s[1..] == s[1..];
    } else {
      var t := s[1..];
      assert e in t by { assert s == [s[0]] + t; }
      var k := IndexOf(t, e);
      assert i == k + 1;
      RemoveAtIndexOf(t, e);
      assert s[..i] + s[i + 1..] == [s[0]] + (t[..k] + t[k + 1..]) by {
        assert s[..i] == [s[0]] + t[..k];
        assert s[i + 1..] == t[k + 1..];
      }
      assert RemoveFirst(s, e) == [s[0]] + RemoveFirst(t, e);
    }
  }

  /** Removing an element that is absent changes nothing. */
  lemma {:induction false} RemoveFirstAbsent<T>(s: seq<T>, e: T)
    requires e !in s
    ensures RemoveFirst(s, e) == s
  {
    if s != [] {
      RemoveFirstAbsent(s[1..], e);
      assert [s[0]] + s[1..] == s;
    }
  }

  /** `List.remove(Object)` shortens a list exactly when the element occurs in it. */
  lemma {:induction false} RemoveFirstLength<T>(s: seq<T>, e: T)
    ensures |RemoveFirst(s, e)| == if e in s then |s| - 1 else |s|
  {
    if s != [] && s[0] != e {
      RemoveFirstLength(s[1..], e);
      assert e in s <==> e in s[1..];
    }
  }

  /** Static `add`: the registry afterwards holds the old elements followed by `e`. */
  function Add<T(==)>(h: Helper<T>, e: T): (u: Update<T>)
    requires Valid(h)
    ensures Valid(u.result)
    ensures Elements(u.result) == Elements(h) + [e]
    ensures CopyOnWrite(h, u)
    ensures u.result.Multi? && !u.inPlace ==> u.result.iterating == 0
    ensures u.inPlace ==> h.Multi? && u.result.iterating == h.iterating
  {
    match h
    case Absent => Update(Single(e), Absent, false)
    case Single(x) => Update(Multi([x, e], 0), h, false)
    case Multi(es, it) =>
      if it > 0 then Update(Multi(es + [e], 0), h, false)
      else
        var m := Multi(es + [e], it);
        Update(m, m, true)
  }

  /**
   * Static `remove`: the registry afterwards is the old one without the first
   * element equal to `e`; a registry of two shrinks to a single element, and a
   * missing element leaves the registry untouched.
   */
  function Remove<T(==)>(h: Helper<T>, e: T): (u: Update<T>)
    requires Valid(h)
    ensures Valid(u.result)
    ensures Elements(u.result) == RemoveFirst(Elements(h), e)
    ensures CopyOnWrite(h, u)
    ensures e !in Elements(h) ==> u.result == h && u.inPlace
    ensures u.result.Multi? && !u.inPlace ==> u.result.iterating == 0
    ensures u.inPlace ==> u.result == h || (h.Multi? && u.result.Multi? && u.result.iterating == h.iterating)
  {
    match h
    case Absent => Update(Absent, Absent, true)
    case Single(x) =>
      if x == e then Update(Absent, h, false)
      else
        RemoveFirstAbsent(Elements(h), e);
        Update(h, h, true)
    case Multi(es, it) =>
      var idx := IndexOf(es, e);
      if idx == -1 then
        RemoveFirstAbsent(es, e);
        Update(h, h, true)
      else
        RemoveAtIndexOf(es, e);
        var rest := es[..idx] + es[idx + 1..];
        if |es| == 2 then
          assert rest == [es[1 - idx]];
          Update(Single(es[1 - idx]), h, false)
        else if it > 0 then Update(Multi(rest, 0), h, false)
        else
          var m := Multi(rest, it);
          Update(m, m, true)
  }

  /** Static `size`. */
  function Size<T>(h: Helper<T>): (n: nat)
    ensures n == |Elements(h)|
  {
    match h
    case Absent => 0
    case Single(_) => 1
    case Multi(es, _) => |es|
  }

  /** Static `isEmpty`: only the absent registry is empty, which for a valid registry means size zero. */
  function IsEmpty<T>(h: Helper<T>): (b: bool)
    requires Valid(h)
    ensures b <==> Size(h) == 0
    ensures b <==> Elements(h) == []
  {
    h.Absent?
  }

  /** Static `toArray`: a fresh array holding the elements in order, one slot per element. */
  function ToArray<T>(h: Helper<T>): (a: seq<T>)
    ensures |a| == Size(h)
    ensures forall i :: 0 <= i < |a| ==> a[i] == Elements(h)[i]
  {
    match h
    case Absent => []
    case Single(e) => [e]
    case Multi(es, _) => es
  }

  /** A position of an iterator: the next index it will read and the end it stops at. */
  datatype Cursor = Cursor(next: nat, to: nat)

  /**
   * Static `iterator`: a cursor over all elements; a list-backed helper counts
   * the new iteration, so it turns copy-on-write until the cursor has handed
   * out its last element.
   */
  function Iterator<T(==)>(h: Helper<T>): (r: (Helper<T>, Cursor))
    ensures Elements(r.0) == Elements(h) && r.1 == Cursor(0, Size(h))
    ensures h.Multi? ==> r.0.Multi? && r.0.iterating == h.iterating + 1
    ensures !h.Multi? ==> r.0 == h
  {
    match h
    case Multi(es, it) => (Multi(es, it + 1), Cursor(0, |es|))
    case _ => (h, Cursor(0, Size(h)))
  }

  predicate HasNext(c: Cursor) {
    c.next < c.to
  }

  /**
   * `next`: the element at the cursor, the helper afterwards and the advanced
   * cursor; the list-backed helper stops counting the iteration as the last
   * element is handed out. Past the end it throws NoSuchElementException.
   */
  function Next<T(==)>(h: Helper<T>, c: Cursor): (r: Result<(T, Helper<T>, Cursor)>)
    requires c.to <= Size(h)
    requires h.Multi? && HasNext(c) ==> h.iterating > 0
    ensures r.Err? <==> !HasNext(c)
    ensures r.Err? ==> r.error == NoSuchElement(None)
    ensures r.Ok? ==> r.value.0 == Elements(h)[c.next] && r.value.2 == Cursor(c.next + 1, c.to)
    ensures r.Ok? ==> Elements(r.value.1) == Elements(h)
    ensures r.Ok? && h.Multi? ==>
              r.value.1.Multi? && r.value.1.iterating == (if c.next + 1 == c.to then h.iterating - 1 else h.iterating)
    ensures r.Ok? && !h.Multi? ==> r.value.1 == h
  {
    if !HasNext(c) then Err(NoSuchElement(None))
    else
      var x := Elements(h)[c.next];
      var c' := Cursor(c.next + 1, c.to);
      match h
      case Multi(es, it) => Ok((x, Multi(es, if c'.next == c.to then it - 1 else it), c'))
      case _ => Ok((x, h, c'))
  }

  /** Iterating with `next` until `hasNext` fails hands out every element once, in order, and restores the count. */
  method Drain<T(==)>(h: Helper<T>) returns (out: seq<T>, after: Helper<T>)
    requires Valid(h)
    ensures out == Elements(h)
    ensures after == h
  {
    var it := Iterator(h);
    var cur, c := it.0, it.1;
    out := [];
    while HasNext(c)
      invariant c.to == Size(h) && c.next <= c.to
      invariant Elements(cur) == Elements(h)
      invariant out == Elements(h)[..c.next]
      invariant h.Multi? ==> cur.Multi? && cur.iterating == (if c.next < c.to then h.iterating + 1 else h.iterating)
      invariant !h.Multi? ==> cur == h
      decreases c.to - c.next
    {
      var r := Next(cur, c);
      out := out + [r.value.0];
      cur, c := r.value.1, r.value.2;
    }
    after := cur;
  }

  /** Removing `e` from a sequence whose first `e` follows a prefix `s` deletes exactly that occurrence. */
  lemma {:induction false} RemoveFirstPastPrefix<T>(s: seq<T>, t: seq<T>, e: T)
    requires e !in s
    ensures RemoveFirst(s + [e] + t, e) == s + t
  {
    if s == [] {
      assert s + [e] + t == [e] + t;
      assert ([e] + t)[1..] == t;
    } else {
      assert (s + [e] + t)[0] == s[0];
      assert (s + [e] + t)[1..] == s[1..] + [e] + t;
      RemoveFirstPastPrefix(s[1..], t, e);
      assert [s[0]] + (s[1..] + t) == s + t;
    }
  }

  /** Adding a new element then removing it gives back the original elements. */
  lemma AddThenRemove<T>(h: Helper<T>, e: T)
    requires Valid(h)
    requires e !in Elements(h)
    ensures Elements(Remove(Add(h, e).result, e).result) == Elements(h)
  {
    RemoveFirstPastPrefix(Elements(h), [], e);
    assert Elements(h) + [e] + [] == Elements(h) + [e];
  }

  /** Adding an element twice registers it twice, and one removal leaves one registration. */
  lemma AddTwiceRemoveOnce<T>(h: Helper<T>, e: T)
    requires Valid(h)
    requires e !in Elements(h)
    ensures Elements(Remove(Add(Add(h, e).result, e).result, e).result) == Elements(h) + [e]
  {
    var once := Add(h, e).result;
    var twice := Add(once, e).result;
    assert Elements(twice) == Elements(h) + [e] + [e];
    RemoveFirstPastPrefix(Elements(h), [e], e);
  }
}
