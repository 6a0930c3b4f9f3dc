/** The pending-event array of the simulation engine: stable insertion by (timestamp, sequence). */
module EventQueues {
  import opened NetTypes

  datatype Event<T> = Event(timestamp: nat, sequence: nat, payload: T)

  /** `a` may stay in front of `b`: the test that stops the insertion scan. */
  predicate NotAfter<T>(a: Event<T>, b: Event<T>) {
    a.timestamp < b.timestamp || (a.timestamp == b.timestamp && a.sequence <= b.sequence)
  }

  /** The order the queue is to be in: by timestamp, and at one timestamp by sequence. */
  predicate InOrder<T>(a: Event<T>, b: Event<T>) {
    a.timestamp <= b.timestamp && (a.timestamp == b.timestamp ==> a.sequence <= b.sequence)
  }

  ghost predicate Sorted<T>(q: seq<Event<T>>) {
    forall i, j :: 0 <= i < j < |q| ==> InOrder(q[i], q[j])
  }

  /** The queue after pushing `e`: behind every event it may follow, in front of the rest. */
  function Insert<T>(q: seq<Event<T>>, e: Event<T>): (r: seq<Event<T>>)
    ensures |r| == |q| + 1
  {
    if |q| == 0 || NotAfter(q[|q| - 1], e) then q + [e]
    else Insert(q[..|q| - 1], e) + [q[|q| - 1]]
  }

  function InsertAll<T>(q: seq<Event<T>>, es: seq<Event<T>>): seq<Event<T>>
    decreases |es|
  {
    if |es| == 0 then q else InsertAll(Insert(q, es[0]), es[1..])
  }

  predicate HasKey<T>(e: Event<T>, ts: nat, sn: nat) {
    e.timestamp == ts && e.sequence == sn
  }

  /** The events of one (timestamp, sequence) key, in queue order. */
  ghost function ByKey<T>(q: seq<Event<T>>, ts: nat, sn: nat): seq<Event<T>> {
    if |q| == 0 then []
    else ByKey(q[..|q| - 1], ts, sn) + if HasKey(q[|q| - 1], ts, sn) then [q[|q| - 1]] else []
  }

  /** Those are all the events of the key and no others. */
  lemma {:induction false} ByKeyExact<T>(q: seq<Event<T>>, ts: nat, sn: nat, x: Event<T>)
    ensures multiset(ByKey(q, ts, sn))[x] == if x.timestamp == ts && x.sequence == sn then multiset(q)[x] else 0
  {
    if |q| > 0 {
      var front, last := q[..|q| - 1], q[|q| - 1];
      ByKeyExact(front, ts, sn, x);
      assert q == front + [last];
      CountSnoc(front, last, x);
      CountSnoc(ByKey(front, ts, sn), last, x);
    }
  }

  lemma CountSnoc<T>(s: seq<T>, y: T, x: T)
    ensures multiset(s + [y])[x] == multiset(s)[x] + if x == y then 1 else 0
  {
  }

  /** Where the insertion scan stops determines the result. */
  lemma {:induction false} InsertSplits<T>(q: seq<Event<T>>, e: Event<T>, i: nat)
    requires i <= |q|
    requires i > 0 ==> NotAfter(q[i - 1], e)
    requires forall k :: i <= k < |q| ==> !NotAfter(q[k], e)
    ensures Insert(q, e) == q[..i] + [e] + q[i..]
  {
    if i < |q| {
      var front := q[..|q| - 1];
      InsertSplits(front, e, i);
      assert front[..i] == q[..i] && front[i..] + [q[|q| - 1]] == q[i..];
    } else {
      assert q[..i] == q;
    }
  }

  /** Insertion keeps the order and adds exactly the new event. */
  lemma {:induction false} InsertSorted<T>(q: seq<Event<T>>, e: Event<T>)
    requires Sorted(q)
    ensures Sorted(Insert(q, e))
    ensures multiset(Insert(q, e)) == multiset(q) + multiset{e}
  {
    InsertAdds(q, e);
    if |q| > 0 {
      var front, last := q[..|q| - 1], q[|q| - 1];
      assert q == front + [last];
      if NotAfter(last, e) {
        SortedSnoc(q, e);
      } else {
        InsertSorted(front, e);
        BehindAll(front, e, last);
        SortedSnoc(Insert(front, e), last);
      }
    }
  }

  lemma {:induction false} InsertAdds<T>(q: seq<Event<T>>, e: Event<T>)
    ensures multiset(Insert(q, e)) == multiset(q) + multiset{e}
  {
    if |q| > 0 {
      var front, last := q[..|q| - 1], q[|q| - 1];
      InsertAdds(front, e);
      assert q == front + [last];
    }
  }

  lemma SortedSnoc<T>(q: seq<Event<T>>, last: Event<T>)
    requires Sorted(q) && forall i :: 0 <= i < |q| ==> InOrder(q[i], last)
    ensures Sorted(q + [last])
  {
  }

  lemma BehindAll<T>(front: seq<Event<T>>, e: Event<T>, last: Event<T>)
    requires (forall i :: 0 <= i < |front| ==> InOrder(front[i], last)) && InOrder(e, last)
    ensures forall i :: 0 <= i < |Insert(front, e)| ==> InOrder(Insert(front, e)[i], last)
  {
    InsertAdds(front, e);
    forall i | 0 <= i < |Insert(front, e)| ensures InOrder(Insert(front, e)[i], last) {
      var x := Insert(front, e)[i];
      assert x in multiset(Insert(front, e));
      assert x in front || x == e;
    }
  }

  lemma {:induction false} ByKeyConcat<T>(a: seq<Event<T>>, b: seq<Event<T>>, ts: nat, sn: nat)
    ensures ByKey(a + b, ts, sn) == ByKey(a, ts, sn) + ByKey(b, ts, sn)
  {
    if |b| == 0 {
      assert a + b == a;
    } else {
      assert (a + b)[..|a + b| - 1] == a + b[..|b| - 1];
      ByKeyConcat(a, b[..|b| - 1], ts, sn);
    }
  }

  lemma ByKeyOne<T>(e: Event<T>, ts: nat, sn: nat)
    ensures ByKey([e], ts, sn) == if HasKey(e, ts, sn) then [e] else []
  {
    assert [e][..0] == [];
  }

  /** Stability: a pushed event goes behind every earlier event of its own key. */
  lemma {:induction false} InsertStable<T>(q: seq<Event<T>>, e: Event<T>, ts: nat, sn: nat)
    ensures ByKey(Insert(q, e), ts, sn) == ByKey(q, ts, sn) + ByKey([e], ts, sn)
  {
    if |q| == 0 || NotAfter(q[|q| - 1], e) {
      ByKeyConcat(q, [e], ts, sn);
    } else {
      var front, last := q[..|q| - 1], q[|q| - 1];
      InsertStable(front, e, ts, sn);
      ByKeyConcat(Insert(front, e), [last], ts, sn);
      ByKeyOne(e, ts, sn);
      ByKeyOne(last, ts, sn);
      OneOfThemElsewhere(ByKey(front, ts, sn), ByKey([e], ts, sn), ByKey([last], ts, sn));
    }
  }

  lemma OneOfThemElsewhere<T>(a: seq<T>, b: seq<T>, c: seq<T>)
    requires b == [] || c == []
    ensures (a + b) + c == (a + c) + b
  {
  }

  /** `EventQueue`: `count` live events at the front of an array that doubles when it is full. */
  class EventQueue<T> {
    var events: array<Event<T>>
    var count: nat

    ghost predicate Valid()
      reads this
    {
      1 <= events.Length && count <= events.Length
    }

    ghost function Contents(): seq<Event<T>>
      requires Valid()
      reads this, events
    {
      events[..count]
    }

    constructor (capacity: nat, filler: Event<T>)
      requires 1 <= capacity
      ensures Valid() && Contents() == [] && fresh(events) && events.Length == capacity
    {
      events := new Event<T>[capacity](_ => filler);
      count := 0;
    }

    /** `event_queue_push`; `canGrow` says whether a needed reallocation succeeds. */
    method Push(e: Event<T>, canGrow: bool) returns (ok: bool)
      requires Valid()
      modifies this, events
      ensures Valid() && (events == old(events) || fresh(events))
      ensures ok <==> canGrow || old(count) < old(events.Length)
      ensures Contents() == if ok then Insert(old(Contents()), e) else old(Contents())
    {
      if count >= events.Length {
        if !canGrow { return false; }
        Grow(e);
      }
      Place(events, count, e);
      count := count + 1;
      ok := true;
    }

    /** Insertion in place behind the first `n` events. */
    static method Place(a: array<Event<T>>, n: nat, e: Event<T>)
      requires n < a.Length
      modifies a
      ensures a[..n + 1] == Insert(old(a[..n]), e)
    {
      ghost var q := a[..n];
      var i := OpenGap(a, n, e);
      a[i] := e;
      InsertSplits(q, e, i);
      assert |q[..i] + [e] + q[i..]| == n + 1;
      assert a[..n + 1] == q[..i] + [e] + q[i..];
    }

    /** The reallocation: twice the room, the same contents. */
    method Grow(filler: Event<T>)
      requires Valid()
      modifies this`events
      ensures Valid() && fresh(events) && events.Length == 2 * old(events.Length)
      ensures Contents() == old(Contents()) && count == old(count)
    {
      var full := events;
      events := new Event<T>[2 * full.Length]
        (i requires 0 <= i reads full => if i < full.Length then full[i] else filler);
      assert events[..count] == full[..count];
    }

    /** The insertion scan: moves the events behind `e` one place back and returns the gap. */
    static method OpenGap(a: array<Event<T>>, n: nat, e: Event<T>) returns (i: nat)
      requires n < a.Length
      modifies a
      ensures i <= n
      ensures i > 0 ==> NotAfter(old(a[i - 1]), e)
      ensures forall k :: i <= k < n ==> !NotAfter(old(a[k]), e) && a[k + 1] == old(a[k])
      ensures forall k :: 0 <= k < i ==> a[k] == old(a[k])
    {
      i := n;
      while i > 0 && !NotAfter(a[i - 1], e)
        invariant 0 <= i <= n
        invariant forall k :: 0 <= k <= i && k < n ==> a[k] == old(a[k])
        invariant forall k :: i <= k < n ==> !NotAfter(old(a[k]), e) && a[k + 1] == old(a[k])
      {
        a[i] := a[i - 1];
        i := i - 1;
      }
    }

    /** `event_queue_pop`: the head leaves and the rest moves one place forward. */
    method Pop() returns (head: Option<Event<T>>)
      requires Valid()
      modifies this, events
      ensures Valid() && events == old(events)
      ensures old(Contents()) == [] ==> head == None && Contents() == []
      ensures old(Contents()) != [] ==> head == Some(old(Contents())[0]) && Contents() == old(Contents())[1..]
    {
      if count == 0 { return None; }
      head := Some(events[0]);
      forall i | 0 <= i < count - 1 { events[i] := events[i + 1]; }
      count := count - 1;
    }
  }
}
