/** The dispatch loop over the event queue, and what holds of every run whatever the handlers do. */
module Scheduling {
  import opened NetTypes
  import opened EventQueues

  /** What one handler call does to the scheduler: the events it schedules, in order, and whether it stops the loop. */
  datatype Effect<T> = Effect(pushes: seq<Event<T>>, stop: bool)

  /** A scheduler with its history: every event dispatched so far and every event ever scheduled. */
  datatype Run<T> = Run(now: nat, queue: seq<Event<T>>, dispatched: seq<Event<T>>, pushed: seq<Event<T>>)

  /** One `scheduler_step` on a non-empty queue whose handler schedules `pushes`. */
  function Dispatch<T>(r: Run<T>, pushes: seq<Event<T>>): Run<T>
    requires r.queue != []
  {
    var e := r.queue[0];
    Run(if e.timestamp > r.now then e.timestamp else r.now,
        InsertAll(r.queue[1..], pushes), r.dispatched + [e], r.pushed + pushes)
  }

  /** `scheduler_run` when the successive handler calls behave as `script`. */
  function Exec<T>(r: Run<T>, script: seq<Effect<T>>): Run<T>
    decreases |script|
  {
    if script == [] || r.queue == [] then r
    else if script[0].stop then Dispatch(r, script[0].pushes)
    else Exec(Dispatch(r, script[0].pushes), script[1..])
  }

  /** How far a run goes: no handler before the last of the `n` asked to stop, and it ended because nothing was pending,
      because the last one did, or because the script ended. */
  ghost predicate RunsUntil<T>(script: seq<Effect<T>>, n: int, queue: seq<Event<T>>) {
    && 0 <= n <= |script|
    && (forall i :: 0 <= i < n - 1 ==> !script[i].stop)
    && (queue == [] || n == |script| || (n > 0 && script[n - 1].stop))
  }

  /** A run dispatches until it is stopped or nothing is left. */
  lemma {:induction false} ExecRunsUntil<T(!new)>(r: Run<T>, script: seq<Effect<T>>)
    ensures r.dispatched <= Exec(r, script).dispatched
    ensures RunsUntil(script, |Exec(r, script).dispatched| - |r.dispatched|, Exec(r, script).queue)
    decreases |script|
  {
    if script != [] && r.queue != [] && !script[0].stop {
      ExecRunsUntil(Dispatch(r, script[0].pushes), script[1..]);
      RunsUntilOn(script, |Exec(r, script).dispatched| - |r.dispatched| - 1, Exec(r, script).queue);
    }
  }

  lemma RunsUntilOn<T>(script: seq<Effect<T>>, n: int, queue: seq<Event<T>>)
    requires script != [] && !script[0].stop && RunsUntil(script[1..], n, queue)
    ensures RunsUntil(script, n + 1, queue)
  {
    assert forall i :: 0 < i < |script| ==> script[i] == script[1..][i - 1];
  }

  lemma TailFrom<T>(front: seq<T>, e: T, whole: seq<T>)
    requires front + [e] <= whole
    ensures whole[|front|..] == [e] + whole[|front| + 1..]
  {
    assert whole[|front|] == (front + [e])[|front|];
  }

  /** The clock follows the latest event dispatched. */
  lemma {:induction false} ExecClockFollows<T(!new)>(r: Run<T>, script: seq<Effect<T>>)
    ensures r.dispatched <= Exec(r, script).dispatched
    ensures ClockFollows(r.now, Exec(r, script).dispatched[|r.dispatched|..], Exec(r, script).now)
    decreases |script|
  {
    if script != [] && r.queue != [] {
      var e, mid := r.queue[0], Dispatch(r, script[0].pushes);
      ClockFollowsOne(r.now, e, mid.now);
      if script[0].stop {
        assert mid.dispatched[|r.dispatched|..] == [e];
      } else {
        var r' := Exec(mid, script[1..]);
        ExecClockFollows(mid, script[1..]);
        TailFrom(r.dispatched, e, r'.dispatched);
        ClockFollowsOn(r.now, e, mid.now, r'.dispatched[|mid.dispatched|..], r'.now);
      }
    }
  }

  /** The clock is where it was or at an event dispatched since, whichever is latest. */
  ghost predicate ClockFollows<T>(start: nat, dispatched: seq<Event<T>>, now: nat) {
    && start <= now && (forall i :: 0 <= i < |dispatched| ==> dispatched[i].timestamp <= now)
    && (now == start || exists i :: 0 <= i < |dispatched| && dispatched[i].timestamp == now)
  }

  lemma ClockFollowsOne<T>(start: nat, e: Event<T>, now: nat)
    requires now == if e.timestamp > start then e.timestamp else start
    ensures ClockFollows(start, [e], now)
  {
    assert [e][0] == e;
  }

  lemma ClockFollowsOn<T>(start: nat, e: Event<T>, mid: nat, more: seq<Event<T>>, now: nat)
    requires ClockFollows(start, [e], mid) && ClockFollows(mid, more, now)
    ensures ClockFollows(start, [e] + more, now)
  {
    var all := [e] + more;
    if now != mid {
      var i :| 0 <= i < |more| && more[i].timestamp == now;
      assert all[i + 1].timestamp == now;
    } else if mid != start {
      assert [e][0].timestamp == mid && all[0].timestamp == now;
    }
  }

  /** Nothing lost, nothing invented, and events of equal key leave in the order they were scheduled. */
  ghost predicate Accounted<T(!new)>(r: Run<T>) {
    && Sorted(r.queue)
    && multiset(r.dispatched) + multiset(r.queue) == multiset(r.pushed)
    && forall ts: nat, sn: nat :: KeyFifo(r, ts, sn)
  }

  ghost predicate KeyFifo<T(!new)>(r: Run<T>, ts: nat, sn: nat) {
    ByKey(r.dispatched, ts, sn) + ByKey(r.queue, ts, sn) == ByKey(r.pushed, ts, sn)
  }

  lemma {:induction false} InsertAllKeeps<T(!new)>(q: seq<Event<T>>, es: seq<Event<T>>)
    requires Sorted(q)
    ensures Sorted(InsertAll(q, es))
    ensures multiset(InsertAll(q, es)) == multiset(q) + multiset(es)
    decreases |es|
  {
    if |es| > 0 {
      InsertSorted(q, es[0]);
      InsertAllKeeps(Insert(q, es[0]), es[1..]);
      assert es == [es[0]] + es[1..];
    }
  }

  lemma {:induction false} InsertAllStable<T(!new)>(q: seq<Event<T>>, es: seq<Event<T>>, ts: nat, sn: nat)
    ensures ByKey(InsertAll(q, es), ts, sn) == ByKey(q, ts, sn) + ByKey(es, ts, sn)
    decreases |es|
  {
    if |es| > 0 {
      InsertStable(q, es[0], ts, sn);
      InsertAllStable(Insert(q, es[0]), es[1..], ts, sn);
      ByKeyConcat([es[0]], es[1..], ts, sn);
      assert es == [es[0]] + es[1..];
    }
  }

  lemma DispatchKeyFifo<T(!new)>(r: Run<T>, pushes: seq<Event<T>>, ts: nat, sn: nat)
    requires r.queue != [] && KeyFifo(r, ts, sn)
    ensures KeyFifo(Dispatch(r, pushes), ts, sn)
  {
    var head, tail := [r.queue[0]], r.queue[1..];
    assert r.queue == head + tail;
    ByKeyConcat(head, tail, ts, sn);
    ByKeyConcat(r.dispatched, head, ts, sn);
    InsertAllStable(tail, pushes, ts, sn);
    ByKeyConcat(r.pushed, pushes, ts, sn);
    Regroup(ByKey(r.dispatched, ts, sn), ByKey(head, ts, sn), ByKey(tail, ts, sn), ByKey(pushes, ts, sn));
  }

  lemma Regroup<T>(a: seq<T>, b: seq<T>, c: seq<T>, d: seq<T>)
    ensures (a + b) + (c + d) == (a + (b + c)) + d
  {
  }

  lemma DispatchAccounted<T(!new)>(r: Run<T>, pushes: seq<Event<T>>)
    requires r.queue != [] && Accounted(r)
    ensures Accounted(Dispatch(r, pushes)) && Dispatch(r, pushes).now >= r.now
  {
    InsertAllKeeps(r.queue[1..], pushes);
    assert r.queue == [r.queue[0]] + r.queue[1..];
    forall ts: nat, sn: nat ensures KeyFifo(Dispatch(r, pushes), ts, sn) {
      assert KeyFifo(r, ts, sn);
      DispatchKeyFifo(r, pushes, ts, sn);
    }
  }

  /** Over every run: the queue stays sorted, dispatched plus pending is a permutation of scheduled,
      each key is served first in first out, and the clock never goes back. */
  lemma {:induction false} EveryRunAccounted<T(!new)>(r: Run<T>, script: seq<Effect<T>>)
    requires Accounted(r)
    ensures Accounted(Exec(r, script)) && Exec(r, script).now >= r.now
    decreases |script|
  {
    if script != [] && r.queue != [] {
      DispatchAccounted(r, script[0].pushes);
      if !script[0].stop { EveryRunAccounted(Dispatch(r, script[0].pushes), script[1..]); }
    }
  }

  /** Handlers that schedule only at or after the time of the event they handle. */
  ghost predicate Timely<T>(r: Run<T>, script: seq<Effect<T>>)
    decreases |script|
  {
    script == [] || r.queue == [] ||
    (&& (forall e :: e in script[0].pushes ==> e.timestamp >= Dispatch(r, script[0].pushes).now)
     && (script[0].stop || Timely(Dispatch(r, script[0].pushes), script[1..])))
  }

  /** Time has been respected so far: the past is ordered and lies behind the clock, the future ahead of it. */
  ghost predicate Chronological<T>(r: Run<T>) {
    && (forall i, j :: 0 <= i < j < |r.dispatched| ==> r.dispatched[i].timestamp <= r.dispatched[j].timestamp)
    && (forall i :: 0 <= i < |r.dispatched| ==> r.dispatched[i].timestamp <= r.now)
    && (forall e :: e in r.queue ==> e.timestamp >= r.now)
  }

  /** Whatever is pending behind the head of the queue, or scheduled for no earlier, lies ahead of the clock. */
  lemma AheadOfClock<T(!new)>(r: Run<T>, pushes: seq<Event<T>>, now: nat, e: Event<T>)
    requires r.queue != [] && Sorted(r.queue) && Chronological(r) && e in InsertAll(r.queue[1..], pushes)
    requires now == Dispatch(r, pushes).now && forall p :: p in pushes ==> p.timestamp >= now
    ensures e.timestamp >= now
  {
    InsertAllKeeps(r.queue[1..], pushes);
    assert e in multiset(InsertAll(r.queue[1..], pushes));
    assert r.queue[0] in r.queue;
    if e in r.queue[1..] {
      var j :| 0 <= j < |r.queue[1..]| && r.queue[1..][j] == e;
      assert InOrder(r.queue[0], r.queue[j + 1]);
    }
  }

  lemma DispatchChronological<T(!new)>(r: Run<T>, pushes: seq<Event<T>>)
    requires r.queue != [] && Sorted(r.queue) && Chronological(r)
    requires forall p :: p in pushes ==> p.timestamp >= Dispatch(r, pushes).now
    ensures Chronological(Dispatch(r, pushes))
  {
    var r' := Dispatch(r, pushes);
    assert r.queue[0] in r.queue;
    forall e | e in r'.queue ensures e.timestamp >= r'.now {
      AheadOfClock(r, pushes, r'.now, e);
    }
  }

  /** If handlers never schedule into the past, events are dispatched in nondecreasing time. */
  lemma {:induction false} TimelyRunsAreChronological<T(!new)>(r: Run<T>, script: seq<Effect<T>>)
    requires Accounted(r) && Chronological(r) && Timely(r, script)
    ensures Chronological(Exec(r, script))
    decreases |script|
  {
    if script != [] && r.queue != [] {
      var r' := Dispatch(r, script[0].pushes);
      DispatchAccounted(r, script[0].pushes);
      DispatchChronological(r, script[0].pushes);
      if !script[0].stop { TimelyRunsAreChronological(r', script[1..]); }
    }
  }

  /** One event scheduled. */
  function Pushed<T>(r: Run<T>, e: Event<T>): Run<T> {
    r.(queue := Insert(r.queue, e), pushed := r.pushed + [e])
  }

  function PushedAll<T>(r: Run<T>, es: seq<Event<T>>): Run<T>
    decreases |es|
  {
    if |es| == 0 then r else PushedAll(Pushed(r, es[0]), es[1..])
  }

  lemma PushedAccounted<T(!new)>(r: Run<T>, e: Event<T>)
    requires Accounted(r)
    ensures Accounted(Pushed(r, e))
  {
    InsertSorted(r.queue, e);
    forall ts: nat, sn: nat ensures KeyFifo(Pushed(r, e), ts, sn) {
      assert KeyFifo(r, ts, sn);
      PushedKeyFifo(r, e, ts, sn);
    }
  }

  lemma PushedKeyFifo<T(!new)>(r: Run<T>, e: Event<T>, ts: nat, sn: nat)
    requires KeyFifo(r, ts, sn)
    ensures KeyFifo(Pushed(r, e), ts, sn)
  {
    InsertStable(r.queue, e, ts, sn);
    ByKeyConcat(r.pushed, [e], ts, sn);
  }

  lemma {:induction false} PushedAllIs<T>(r: Run<T>, es: seq<Event<T>>)
    ensures PushedAll(r, es) == r.(queue := InsertAll(r.queue, es), pushed := r.pushed + es)
    decreases |es|
  {
    if |es| == 0 {
      assert r.pushed + es == r.pushed;
    } else {
      PushedAllIs(Pushed(r, es[0]), es[1..]);
      assert r.pushed + es == r.pushed + [es[0]] + es[1..];
    }
  }

  /** A dispatch is the head leaving the queue, and then the handler scheduling. */
  lemma DispatchInParts<T>(r: Run<T>, pushes: seq<Event<T>>)
    requires r.queue != []
    ensures PushedAll(Dispatch(r, []), pushes) == Dispatch(r, pushes)
  {
    PushedAllIs(Dispatch(r, []), pushes);
  }

  /** The run does not go back in time, and with timely handlers it stays chronological. */
  ghost predicate StaysInTime<T>(r: Run<T>, script: seq<Effect<T>>, r': Run<T>) {
    r'.now >= r.now && (Chronological(r) && Timely(r, script) ==> Chronological(r'))
  }

  lemma ExecStaysInTime<T(!new)>(r: Run<T>, script: seq<Effect<T>>)
    requires Accounted(r)
    ensures StaysInTime(r, script, Exec(r, script))
  {
    EveryRunAccounted(r, script);
    if Chronological(r) && Timely(r, script) { TimelyRunsAreChronological(r, script); }
  }

  /** The history of a new scheduler is accounted. */
  lemma StartAccounted<T(!new)>(start: Run<T>)
    requires start == Run(0, [], [], [])
    ensures Accounted(start) && Chronological(start)
  {
  }

  /** A run of what is left of a script, one dispatch at a time. */
  lemma ExecFrom<T>(r: Run<T>, script: seq<Effect<T>>, i: nat)
    requires i < |script|
    ensures Exec(r, script[i..]) ==
            if r.queue == [] then r
            else if script[i].stop then Dispatch(r, script[i].pushes)
            else Exec(Dispatch(r, script[i].pushes), script[i + 1..])
  {
    assert script[i..][1..] == script[i + 1..];
  }

  lemma ExecOfNothing<T>(r: Run<T>, script: seq<Effect<T>>)
    ensures Exec(r, script[|script|..]) == r && Exec(r, script[0..]) == Exec(r, script)
  {
    assert script[0..] == script;
  }

  /** One step: nothing on an empty queue, else the head dispatched and the flag cleared if its handler says stop. */
  ghost predicate Stepped<T>(r: Run<T>, running: bool, effect: Effect<T>, event: Option<Event<T>>,
                             r': Run<T>, running': bool) {
    if r.queue == [] then event == None && r' == r && running' == running
    else event == Some(r.queue[0]) && r' == Dispatch(r, effect.pushes) && running' == (running && !effect.stop)
  }

  /** `Scheduler`: the queue, the clock and the running flag, with the history of all that happened to them. */
  class Scheduler<T(!new)> {
    const eq: EventQueue<T>
    var now: nat
    var running: bool
    ghost var past: Run<T>

    /** The history ends in the present state. */
    ghost predicate Current()
      reads this, eq, eq.events
    {
      eq.Valid() && past.now == now && past.queue == eq.Contents()
    }

    ghost predicate Valid()
      reads this, eq, eq.events
    {
      Current() && Accounted(past)
    }

    constructor (capacity: nat, filler: Event<T>)
      requires 1 <= capacity
      ensures Valid() && past == Run(0, [], [], []) && Chronological(past) && !running && fresh(eq) && fresh(eq.events)
    {
      eq := new EventQueue<T>(capacity, filler);
      now, running := 0, false;
      past := Run(0, [], [], []);
      new;
      StartAccounted(past);
    }

    /** `scheduler_schedule`; `canGrow` says whether a needed reallocation succeeds. */
    method Schedule(e: Event<T>, canGrow: bool) returns (ok: bool)
      requires Valid()
      modifies this`past, eq, eq.events
      ensures Valid() && (eq.events == old(eq.events) || fresh(eq.events))
      ensures ok <==> canGrow || old(eq.count) < old(eq.events.Length)
      ensures past == if ok then Pushed(old(past), e) else old(past)
    {
      PushedAccounted(past, e);
      ok := Enqueue(e, canGrow);
    }

    /** The push behind it, on queue and history. */
    method Enqueue(e: Event<T>, canGrow: bool) returns (ok: bool)
      requires Current()
      modifies this`past, eq, eq.events
      ensures Current() && (eq.events == old(eq.events) || fresh(eq.events))
      ensures ok <==> canGrow || old(eq.count) < old(eq.events.Length)
      ensures past == if ok then Pushed(old(past), e) else old(past)
    {
      ok := eq.Push(e, canGrow);
      if ok { past := Pushed(past, e); }
    }

    /** What a handler schedules, in order. */
    method Handle(pushes: seq<Event<T>>)
      requires Current()
      modifies this`past, eq, eq.events
      ensures Current() && (eq.events == old(eq.events) || fresh(eq.events))
      ensures past == PushedAll(old(past), pushes)
    {
      var i := 0;
      while i < |pushes|
        invariant 0 <= i <= |pushes| && Current()
        invariant eq.events == old(eq.events) || fresh(eq.events)
        invariant PushedAll(past, pushes[i..]) == PushedAll(old(past), pushes)
      {
        assert pushes[i..][1..] == pushes[i + 1..];
        var ok := Enqueue(pushes[i], true);
        i := i + 1;
      }
    }

    /** The head of the queue, with the clock moved on to it. */
    method Take() returns (event: Option<Event<T>>)
      requires Current()
      modifies this`now, this`past, eq, eq.events
      ensures Current() && eq.events == old(eq.events)
      ensures if old(past).queue == [] then event == None && past == old(past)
              else event == Some(old(past).queue[0]) && past == Dispatch(old(past), [])
    {
      event := eq.Pop();
      if event.None? { return; }
      if event.value.timestamp > now { now := event.value.timestamp; }
      past := Dispatch(past, []);
    }

    /** One dispatch, on clock, queue and history. */
    method DispatchHead(effect: Effect<T>) returns (event: Option<Event<T>>)
      requires Current()
      modifies this, eq, eq.events
      ensures Current() && (eq.events == old(eq.events) || fresh(eq.events))
      ensures Stepped(old(past), old(running), effect, event, past, running)
    {
      if past.queue != [] { DispatchInParts(past, effect.pushes); }
      event := Take();
      if event.None? { return; }
      Handle(effect.pushes);
      if effect.stop { running := false; }
    }

    /** `scheduler_step`; `effect` is what the handler of the popped event does, its pushes those that succeed. */
    method Step(effect: Effect<T>) returns (event: Option<Event<T>>)
      requires Valid()
      modifies this, eq, eq.events
      ensures Valid() && (eq.events == old(eq.events) || fresh(eq.events))
      ensures Stepped(old(past), old(running), effect, event, past, running)
    {
      if past.queue != [] { DispatchAccounted(past, effect.pushes); }
      event := DispatchHead(effect);
    }

    /** The loop of `scheduler_run`, on clock, queue and history. */
    method DispatchAll(script: seq<Effect<T>>) returns (trace: seq<Event<T>>)
      requires Current()
      modifies this, eq, eq.events
      ensures Current() && !running && past == Exec(old(past), script)
      ensures past.dispatched == old(past).dispatched + trace
    {
      ghost var goal := Exec(past, script);
      ExecOfNothing(past, script);
      running := true;
      trace := [];
      var i := 0;
      while i < |script| && running
        invariant 0 <= i <= |script| && Current()
        invariant eq.events == old(eq.events) || fresh(eq.events)
        invariant past.dispatched == old(past).dispatched + trace
        invariant if running then Exec(past, script[i..]) == goal else past == goal
        decreases |script| - i, running
      {
        ExecFrom(past, script, i);
        var event := DispatchHead(script[i]);
        if event.None? {
          running := false;
        } else {
          trace := trace + [event.value];
        }
        i := i + 1;
      }
      ExecOfNothing(past, script);
      running := false;
    }

    /** `scheduler_run` for as many handler calls as `script` describes: the run theorems hold of it. */
    method Loop(script: seq<Effect<T>>) returns (trace: seq<Event<T>>)
      requires Valid()
      modifies this, eq, eq.events
      ensures Valid() && !running && past == Exec(old(past), script)
      ensures past.dispatched == old(past).dispatched + trace
      ensures RunsUntil(script, |trace|, past.queue) && ClockFollows(old(now), trace, now)
      ensures StaysInTime(old(past), script, past)
    {
      EveryRunAccounted(past, script);
      ExecStaysInTime(past, script);
      ExecRunsUntil(past, script);
      ExecClockFollows(past, script);
      trace := DispatchAll(script);
    }
  }
}
