/** The protocol timers under the scheduler: how stale a neighbour or a route can get in any run. */
module Staleness {
  import opened NetTypes
  import opened OspfTypes
  import opened OspfNeighbors
  import opened RouteTables
  import opened EventQueues
  import Scheduling
  import Rip = RipDatabase

  /** What an event is for; `Other` stands for every event that is not one of the three sweep timers. */
  datatype Kind = DeadTimer | TimeoutTimer | GcTimer | Other

  /** A router under its scheduler; `ospfUp` and `ripUp` say whether the protocol has been initialised yet. */
  datatype System = System(now: nat, queue: seq<Event<Kind>>, ospfUp: bool, nbrs: seq<Neighbor>, ripUp: bool,
                           rip: Rip.Rip)

  /** What can happen to the protocol state in a handler, besides scheduling. */
  datatype Action =
    | StartOspf
    | StartRip
    | Hello(id: u32, ip: u32, iface: Iface, seen: bool)
    | Entry(src: u32, iface: Iface, advert: Rip.Advert)
    | OtherRoute(op: RibOp)

  const NO_NEIGHBOR := Neighbor(false, 0, 0, Down, 0, NoIface)

  ghost function Act(s: System, a: Action): System {
    match a
    case StartOspf => s.(ospfUp := true, nbrs := seq(|s.nbrs|, _ => NO_NEIGHBOR))
    case StartRip => s.(ripUp := true, rip := s.rip.(db := seq(|s.rip.db|, _ => Rip.EMPTY)))
    case Hello(id, ip, iface, seen) =>
      if s.ospfUp then s.(nbrs := ReceiveHello(s.nbrs, id, ip, iface, seen, s.now)) else s
    case Entry(src, iface, advert) =>
      if s.ripUp then s.(rip := Rip.Learn(s.rip, s.now, src, iface, advert)) else s
    case OtherRoute(op) =>
      var (rib, seqNo) := ApplyOp(s.rip.rib, s.rip.seqNo, op);
      s.(rip := s.rip.(rib := rib, seqNo := seqNo))
  }

  ghost function ActAll(s: System, actions: seq<Action>): System {
    if actions == [] then s else Act(ActAll(s, actions[..|actions| - 1]), actions[|actions| - 1])
  }

  /** The sweep timers that starting a protocol schedules. */
  ghost function Timers(now: nat, a: Action): seq<Event<Kind>> {
    match a
    case StartOspf => [Event(now + DEAD_INTERVAL, 0, DeadTimer)]
    case StartRip => [Event(now + Rip.TIMEOUT, 0, TimeoutTimer), Event(now + Rip.GC, 0, GcTimer)]
    case _ => []
  }

  ghost function AllTimers(now: nat, actions: seq<Action>): seq<Event<Kind>> {
    if actions == [] then [] else AllTimers(now, actions[..|actions| - 1]) + Timers(now, actions[|actions| - 1])
  }

  /** A handler, or code outside the loop: does `actions` and schedules `pushes`. */
  ghost function Handle(s: System, actions: seq<Action>, pushes: seq<Event<Kind>>): System {
    ActAll(s, actions).(queue := InsertAll(s.queue, AllTimers(s.now, actions) + pushes))
  }

  /** The clock at a dispatch. */
  ghost function Later(s: System): nat
    requires s.queue != []
  {
    if s.queue[0].timestamp > s.now then s.queue[0].timestamp else s.now
  }

  /** One dispatch: the head event leaves the queue, the clock follows it, its handler runs and schedules. */
  ghost function Dispatch(s: System, actions: seq<Action>, pushes: seq<Event<Kind>>): System
    requires s.queue != []
  {
    var now := Later(s);
    var t := s.(now := now, queue := s.queue[1..]);
    match s.queue[0].payload
    case DeadTimer =>
      t.(nbrs := DeadSweep(s.nbrs, now),
         queue := InsertAll(t.queue, pushes + [Event(now + DEAD_INTERVAL, 0, DeadTimer)]))
    case TimeoutTimer =>
      t.(rip := Rip.TimeoutSweep(s.rip, now, |s.rip.db|),
         queue := InsertAll(t.queue, pushes + [Event(now + Rip.TIMEOUT, 0, TimeoutTimer)]))
    case GcTimer =>
      t.(rip := s.rip.(db := Rip.GcSweep(s.rip.db, now, |s.rip.db|)),
         queue := InsertAll(t.queue, pushes + [Event(now + Rip.GC, 0, GcTimer)]))
    case Other => Handle(t, actions, pushes)
  }

  /** Before any protocol is started. */
  ghost predicate Booted(s: System) {
    Sorted(s.queue) && !s.ospfUp && !s.ripUp && NothingYet(s)
  }

  /** A protocol that is not up knows nothing. */
  ghost predicate NothingYet(s: System) {
    && (!s.ospfUp ==> forall i :: 0 <= i < |s.nbrs| ==> !s.nbrs[i].valid)
    && (!s.ripUp ==> forall i :: 0 <= i < |s.rip.db| ==> !s.rip.db[i].valid)
  }

  // ---------- The invariant ----------

  /** A pending timer, not in the past and at most one period ahead. */
  ghost predicate Pending(s: System, kind: Kind, at: nat, period: nat) {
    Event(at, 0, kind) in s.queue && s.now <= at <= s.now + period
  }

  ghost predicate NbrFresh(n: Neighbor, dead: nat) {
    n.valid && n.state != Down ==> dead < n.lastHello + 2 * DEAD_INTERVAL
  }

  ghost predicate RouteFresh(e: Rip.Info, timeout: nat, gc: nat) {
    e.valid ==>
      && (e.phase == Rip.Active ==> timeout <= e.lastUpdate + 2 * Rip.TIMEOUT)
      && gc <= e.lastUpdate + 2 * Rip.TIMEOUT + Rip.GC
  }

  /** The next sweeps come soon enough for everything in the tables. */
  ghost predicate Fresh(s: System, dead: nat, timeout: nat, gc: nat) {
    && (forall i :: 0 <= i < |s.nbrs| ==> NbrFresh(s.nbrs[i], dead))
    && (forall i :: 0 <= i < |s.rip.db| ==> RouteFresh(s.rip.db[i], timeout, gc))
  }

  ghost predicate Inv(s: System, dead: nat, timeout: nat, gc: nat) {
    && Sorted(s.queue) && Fresh(s, dead, timeout, gc) && NothingYet(s)
    && (s.ospfUp ==> Pending(s, DeadTimer, dead, DEAD_INTERVAL))
    && (s.ripUp ==> Pending(s, TimeoutTimer, timeout, Rip.TIMEOUT) && Pending(s, GcTimer, gc, Rip.GC))
  }

  /** The next sweeps lie no farther ahead than one period. */
  ghost predicate Soon(now: nat, dead: nat, timeout: nat, gc: nat) {
    dead <= now + DEAD_INTERVAL && timeout <= now + Rip.TIMEOUT && gc <= now + Rip.GC
  }

  // ---------- What the sweeps and updates do to each slot ----------

  lemma {:induction false} TimeoutSlots(s: Rip.Rip, now: nat, k: nat, i: int)
    requires k <= |s.db| && 0 <= i < |s.db|
    ensures Rip.TimeoutSweep(s, now, k).db[i] ==
            if i < k && Rip.TimedOut(s.db[i], now) then s.db[i].(metric := Rip.RIP_INFINITY, phase := Rip.Collecting)
            else s.db[i]
  {
    if k > 0 {
      TimeoutSlots(s, now, k - 1, i);
      TimeoutSlots(s, now, k - 1, k - 1);
    }
  }

  lemma {:induction false} GcSlots(db: seq<Rip.Info>, now: nat, k: nat, i: int)
    requires k <= |db| && 0 <= i < |db|
    ensures Rip.GcSweep(db, now, k)[i] ==
            if i < k && Rip.Collectable(db[i], now) then db[i].(valid := false, learnedOn := NoIface) else db[i]
  {
    if k > 0 {
      GcSlots(db, now, k - 1, i);
      GcSlots(db, now, k - 1, k - 1);
    }
  }

  lemma ActFresh(s: System, a: Action, dead: nat, timeout: nat, gc: nat)
    requires Fresh(s, dead, timeout, gc) && NothingYet(s) && Soon(s.now, dead, timeout, gc)
    ensures Fresh(Act(s, a), dead, timeout, gc) && NothingYet(Act(s, a)) && Act(s, a).now == s.now
    ensures Act(s, a).ospfUp == (s.ospfUp || a.StartOspf?) && Act(s, a).ripUp == (s.ripUp || a.StartRip?)
  {
  }

  /** What a protocol schedules when it comes up. */
  ghost predicate StartsTimers(s: System, s': System, timers: seq<Event<Kind>>) {
    && (s'.ospfUp ==> s.ospfUp || Event(s.now + DEAD_INTERVAL, 0, DeadTimer) in timers)
    && (s'.ripUp ==> s.ripUp || (Event(s.now + Rip.TIMEOUT, 0, TimeoutTimer) in timers &&
                                 Event(s.now + Rip.GC, 0, GcTimer) in timers))
    && (s.ospfUp ==> s'.ospfUp) && (s.ripUp ==> s'.ripUp)
  }

  lemma {:induction false} ActAllFresh(s: System, actions: seq<Action>, dead: nat, timeout: nat, gc: nat)
    requires Fresh(s, dead, timeout, gc) && NothingYet(s) && Soon(s.now, dead, timeout, gc)
    ensures var r := ActAll(s, actions);
            && Fresh(r, dead, timeout, gc) && NothingYet(r) && r.now == s.now
            && StartsTimers(s, r, AllTimers(s.now, actions))
  {
    if actions != [] {
      var front, last := actions[..|actions| - 1], actions[|actions| - 1];
      ActAllFresh(s, front, dead, timeout, gc);
      ActFresh(ActAll(s, front), last, dead, timeout, gc);
      StartsMore(s, ActAll(s, front), AllTimers(s.now, front), last);
    }
  }

  lemma StartsMore(s: System, mid: System, timers: seq<Event<Kind>>, a: Action)
    requires StartsTimers(s, mid, timers) && mid.now == s.now
    ensures StartsTimers(s, Act(mid, a), timers + Timers(s.now, a))
  {
    var more := Timers(s.now, a);
    assert forall e :: e in timers || e in more ==> e in timers + more;
    assert a.StartOspf? ==> more[0] in more;
    assert a.StartRip? ==> more[0] in more && more[1] in more;
  }

  /** Dispatching the head event leaves every other pending timer pending. */
  lemma OthersPending(s: System, kind: Kind, at: nat, period: nat, now: nat, queue: seq<Event<Kind>>,
                      pushes: seq<Event<Kind>>)
    requires s.queue != [] && Sorted(s.queue) && Pending(s, kind, at, period) && s.queue[0] != Event(at, 0, kind)
    requires now == (if s.queue[0].timestamp > s.now then s.queue[0].timestamp else s.now)
    requires queue == InsertAll(s.queue[1..], pushes)
    ensures Event(at, 0, kind) in queue && now <= at <= now + period
  {
    var i :| 0 <= i < |s.queue| && s.queue[i] == Event(at, 0, kind);
    assert InOrder(s.queue[0], s.queue[i]);
    assert s.queue[1..][i - 1] == Event(at, 0, kind);
    Scheduling.InsertAllKeeps(s.queue[1..], pushes);
    assert Event(at, 0, kind) in multiset(queue);
  }

  lemma PushedPending(queue: seq<Event<Kind>>, pushes: seq<Event<Kind>>, e: Event<Kind>)
    requires Sorted(queue) && e in pushes
    ensures Sorted(InsertAll(queue, pushes)) && e in InsertAll(queue, pushes)
  {
    Scheduling.InsertAllKeeps(queue, pushes);
    assert e in multiset(InsertAll(queue, pushes));
  }

  /** When the timer dispatched is the tracked one, the clock reads exactly its time and the next is one period on. */
  ghost function NextAt(s: System, kind: Kind, at: nat, period: nat): nat
    requires s.queue != []
  {
    if s.queue[0] == Event(at, 0, kind) then Later(s) + period else at
  }

  /** After any dispatch each sweep timer is still pending, the rescheduled one a period ahead. */
  lemma TimerPending(s: System, kind: Kind, at: nat, period: nat, pushes: seq<Event<Kind>>, queue: seq<Event<Kind>>)
    requires s.queue != [] && Sorted(s.queue) && Pending(s, kind, at, period)
    requires queue == InsertAll(s.queue[1..], pushes)
    requires s.queue[0].payload == kind ==> Event(Later(s) + period, 0, kind) in pushes
    ensures Sorted(queue)
    ensures var at' := NextAt(s, kind, at, period); Event(at', 0, kind) in queue && Later(s) <= at' <= Later(s) + period
    ensures Later(s) <= at && (s.queue[0] == Event(at, 0, kind) ==> Later(s) == at)
  {
    Scheduling.InsertAllKeeps(s.queue[1..], pushes);
    if s.queue[0] == Event(at, 0, kind) {
      PushedPending(s.queue[1..], pushes, Event(Later(s) + period, 0, kind));
    } else {
      OthersPending(s, kind, at, period, Later(s), queue, pushes);
    }
  }

  lemma NbrsFresh(nbrs: seq<Neighbor>, now: nat, dead: nat, dead': nat)
    requires forall i :: 0 <= i < |nbrs| ==> NbrFresh(nbrs[i], dead)
    requires dead' == dead || (now == dead && dead' == dead + DEAD_INTERVAL)
    ensures forall i :: 0 <= i < |nbrs| ==> NbrFresh(DeadSweep(nbrs, now)[i], dead')
  {
  }

  lemma TimeoutFresh(s: Rip.Rip, now: nat, timeout: nat, timeout': nat, gc: nat)
    requires forall i :: 0 <= i < |s.db| ==> RouteFresh(s.db[i], timeout, gc)
    requires timeout' == timeout || (now == timeout && timeout' == timeout + Rip.TIMEOUT)
    ensures forall i :: 0 <= i < |s.db| ==> RouteFresh(Rip.TimeoutSweep(s, now, |s.db|).db[i], timeout', gc)
  {
    forall i | 0 <= i < |s.db| ensures RouteFresh(Rip.TimeoutSweep(s, now, |s.db|).db[i], timeout', gc) {
      TimeoutSlots(s, now, |s.db|, i);
    }
  }

  lemma GcFresh(db: seq<Rip.Info>, now: nat, timeout: nat, gc: nat, gc': nat)
    requires forall i :: 0 <= i < |db| ==> RouteFresh(db[i], timeout, gc)
    requires now <= timeout && (gc' == gc || (now == gc && gc' == gc + Rip.GC))
    ensures forall i :: 0 <= i < |db| ==> RouteFresh(Rip.GcSweep(db, now, |db|)[i], timeout, gc')
  {
    forall i | 0 <= i < |db| ensures RouteFresh(Rip.GcSweep(db, now, |db|)[i], timeout, gc') {
      GcSlots(db, now, |db|, i);
    }
  }

  /** The events a dispatch inserts. */
  ghost function Inserted(s: System, actions: seq<Action>, pushes: seq<Event<Kind>>): seq<Event<Kind>>
    requires s.queue != []
  {
    match s.queue[0].payload
    case DeadTimer => pushes + [Event(Later(s) + DEAD_INTERVAL, 0, DeadTimer)]
    case TimeoutTimer => pushes + [Event(Later(s) + Rip.TIMEOUT, 0, TimeoutTimer)]
    case GcTimer => pushes + [Event(Later(s) + Rip.GC, 0, GcTimer)]
    case Other => AllTimers(Later(s), actions) + pushes
  }

  /** On the queue and the clock a dispatch is the scheduler's own. */
  lemma DispatchIsSchedulers(s: System, actions: seq<Action>, pushes: seq<Event<Kind>>, r: Scheduling.Run<Kind>)
    requires r.now == s.now && r.queue == s.queue != []
    ensures Dispatch(s, actions, pushes).queue == Scheduling.Dispatch(r, Inserted(s, actions, pushes)).queue
    ensures Dispatch(s, actions, pushes).now == Scheduling.Dispatch(r, Inserted(s, actions, pushes)).now
  {
    ActAllClock(s.(now := Later(s), queue := s.queue[1..]), actions);
  }

  lemma {:induction false} ActAllClock(s: System, actions: seq<Action>)
    ensures ActAll(s, actions).now == s.now
  {
    if actions != [] { ActAllClock(s, actions[..|actions| - 1]); }
  }

  /** Whatever a handler or code outside the loop does, the invariant stays, with new timers for a protocol that it
      starts. */
  lemma HandleKeeps(s: System, actions: seq<Action>, pushes: seq<Event<Kind>>, dead: nat, timeout: nat, gc: nat)
    returns (dead': nat, timeout': nat, gc': nat)
    requires Inv(s, dead, timeout, gc)
    ensures Inv(Handle(s, actions, pushes), dead', timeout', gc')
  {
    dead' := if s.ospfUp then dead else s.now + DEAD_INTERVAL;
    timeout' := if s.ripUp then timeout else s.now + Rip.TIMEOUT;
    gc' := if s.ripUp then gc else s.now + Rip.GC;
    assert Fresh(s, dead', timeout', gc');
    ActAllFresh(s, actions, dead', timeout', gc');
    Scheduling.InsertAllKeeps(s.queue, AllTimers(s.now, actions) + pushes);
    var queue := Handle(s, actions, pushes).queue;
    assert forall e :: e in s.queue || e in AllTimers(s.now, actions) ==> e in multiset(queue);
  }

  /** The head leaves the queue: what remains is pending still. */
  lemma PopKeeps(s: System, t: System, dead: nat, timeout: nat, gc: nat)
    requires s.queue != [] && Inv(s, dead, timeout, gc) && s.queue[0].payload == Other
    requires t == s.(now := Later(s), queue := s.queue[1..])
    ensures Inv(t, dead, timeout, gc)
  {
    if s.ospfUp { TimerPending(s, DeadTimer, dead, DEAD_INTERVAL, [], t.queue); }
    if s.ripUp {
      TimerPending(s, TimeoutTimer, timeout, Rip.TIMEOUT, [], t.queue);
      TimerPending(s, GcTimer, gc, Rip.GC, [], t.queue);
    }
  }

  /** A sweep keeps the invariant: its own timer is pending again, one period on. */
  lemma SweepKeeps(s: System, pushes: seq<Event<Kind>>, dead: nat, timeout: nat, gc: nat, dead': nat, timeout': nat,
                   gc': nat)
    requires s.queue != [] && Inv(s, dead, timeout, gc) && s.queue[0].payload != Other
    requires dead' == NextAt(s, DeadTimer, dead, DEAD_INTERVAL)
    requires timeout' == NextAt(s, TimeoutTimer, timeout, Rip.TIMEOUT) && gc' == NextAt(s, GcTimer, gc, Rip.GC)
    ensures Inv(Dispatch(s, [], pushes), dead', timeout', gc')
  {
    SweepPending(s, Inserted(s, [], pushes), InsertAll(s.queue[1..], Inserted(s, [], pushes)), dead, timeout, gc);
    SweepFresh(s, pushes, dead, timeout, gc, dead', timeout', gc');
  }

  lemma SweepPending(s: System, inserted: seq<Event<Kind>>, queue: seq<Event<Kind>>, dead: nat, timeout: nat, gc: nat)
    requires s.queue != [] && Inv(s, dead, timeout, gc) && queue == InsertAll(s.queue[1..], inserted)
    requires s.queue[0].payload == DeadTimer ==> Event(Later(s) + DEAD_INTERVAL, 0, DeadTimer) in inserted
    requires s.queue[0].payload == TimeoutTimer ==> Event(Later(s) + Rip.TIMEOUT, 0, TimeoutTimer) in inserted
    requires s.queue[0].payload == GcTimer ==> Event(Later(s) + Rip.GC, 0, GcTimer) in inserted
    ensures Sorted(queue)
    ensures s.ospfUp ==> Rescheduled(s, DeadTimer, dead, DEAD_INTERVAL, queue)
    ensures s.ripUp ==> Rescheduled(s, TimeoutTimer, timeout, Rip.TIMEOUT, queue)
    ensures s.ripUp ==> Rescheduled(s, GcTimer, gc, Rip.GC, queue)
  {
    Scheduling.InsertAllKeeps(s.queue[1..], inserted);
    if s.ospfUp { TimerPending(s, DeadTimer, dead, DEAD_INTERVAL, inserted, queue); }
    if s.ripUp {
      TimerPending(s, TimeoutTimer, timeout, Rip.TIMEOUT, inserted, queue);
      TimerPending(s, GcTimer, gc, Rip.GC, inserted, queue);
    }
  }

  /** After the head was dispatched the timer is pending in the new queue, and the clock has not passed the old one. */
  ghost predicate Rescheduled(s: System, kind: Kind, at: nat, period: nat, queue: seq<Event<Kind>>)
    requires s.queue != []
  {
    var at' := NextAt(s, kind, at, period);
    && Event(at', 0, kind) in queue && Later(s) <= at' <= Later(s) + period
    && Later(s) <= at && (s.queue[0] == Event(at, 0, kind) ==> Later(s) == at)
  }

  lemma SweepFresh(s: System, pushes: seq<Event<Kind>>, dead: nat, timeout: nat, gc: nat, dead': nat, timeout': nat,
                   gc': nat)
    requires s.queue != [] && Fresh(s, dead, timeout, gc) && NothingYet(s) && s.queue[0].payload != Other
    requires dead' == NextAt(s, DeadTimer, dead, DEAD_INTERVAL)
    requires timeout' == NextAt(s, TimeoutTimer, timeout, Rip.TIMEOUT) && gc' == NextAt(s, GcTimer, gc, Rip.GC)
    requires s.ospfUp ==> s.queue[0] == Event(dead, 0, DeadTimer) ==> Later(s) == dead
    requires s.ripUp ==>
               && Later(s) <= timeout && (s.queue[0] == Event(timeout, 0, TimeoutTimer) ==> Later(s) == timeout)
               && (s.queue[0] == Event(gc, 0, GcTimer) ==> Later(s) == gc)
    ensures Fresh(Dispatch(s, [], pushes), dead', timeout', gc') && NothingYet(Dispatch(s, [], pushes))
  {
    var now := Later(s);
    match s.queue[0].payload
    case DeadTimer => if s.ospfUp { NbrsFresh(s.nbrs, now, dead, dead'); }
    case TimeoutTimer =>
      if s.ripUp { TimeoutFresh(s.rip, now, timeout, timeout', gc); } else { SweepsNothing(s.rip, now); }
    case GcTimer =>
      if s.ripUp { GcFresh(s.rip.db, now, timeout, gc, gc'); } else { SweepsNothing(s.rip, now); }
    case Other => assert false;
  }

  lemma SweepsNothing(s: Rip.Rip, now: nat)
    requires forall i :: 0 <= i < |s.db| ==> !s.db[i].valid
    ensures forall i :: 0 <= i < |s.db| ==> !Rip.TimeoutSweep(s, now, |s.db|).db[i].valid
    ensures |Rip.GcSweep(s.db, now, |s.db|)| == |s.db|
    ensures forall i :: 0 <= i < |s.db| ==> !Rip.GcSweep(s.db, now, |s.db|)[i].valid
  {
    forall i | 0 <= i < |s.db|
      ensures !Rip.TimeoutSweep(s, now, |s.db|).db[i].valid && !Rip.GcSweep(s.db, now, |s.db|)[i].valid
    {
      TimeoutSlots(s, now, |s.db|, i);
      GcSlots(s.db, now, |s.db|, i);
    }
  }

  /** Every dispatch keeps the invariant. */
  lemma DispatchKeeps(s: System, actions: seq<Action>, pushes: seq<Event<Kind>>, dead: nat, timeout: nat, gc: nat)
    returns (dead': nat, timeout': nat, gc': nat)
    requires s.queue != [] && Inv(s, dead, timeout, gc)
    ensures Inv(Dispatch(s, actions, pushes), dead', timeout', gc')
  {
    if s.queue[0].payload == Other {
      var t := s.(now := Later(s), queue := s.queue[1..]);
      PopKeeps(s, t, dead, timeout, gc);
      dead', timeout', gc' := HandleKeeps(t, actions, pushes, dead, timeout, gc);
    } else {
      dead' := NextAt(s, DeadTimer, dead, DEAD_INTERVAL);
      timeout', gc' := NextAt(s, TimeoutTimer, timeout, Rip.TIMEOUT), NextAt(s, GcTimer, gc, Rip.GC);
      SweepKeeps(s, pushes, dead, timeout, gc, dead', timeout', gc');
    }
  }

  // ---------- Every run ----------

  /** One dispatched event and what its handler does, or calls from outside the loop, such as starting a protocol. */
  datatype Step = Dispatched(actions: seq<Action>, pushes: seq<Event<Kind>>)
                | Outside(actions: seq<Action>, pushes: seq<Event<Kind>>)

  ghost function Exec(s: System, run: seq<Step>): System {
    if run == [] then s
    else
      var t, step := Exec(s, run[..|run| - 1]), run[|run| - 1];
      if step.Outside? then Handle(t, step.actions, step.pushes)
      else if t.queue == [] then t
      else Dispatch(t, step.actions, step.pushes)
  }

  /** No live neighbour, active route or stored route is older than the bounds. */
  ghost predicate Bounded(s: System) {
    && (forall i :: 0 <= i < |s.nbrs| && s.nbrs[i].valid && s.nbrs[i].state != Down ==>
          s.now - s.nbrs[i].lastHello < 80_000_000)
    && (forall i :: 0 <= i < |s.rip.db| && s.rip.db[i].valid && s.rip.db[i].phase == Rip.Active ==>
          s.now - s.rip.db[i].lastUpdate <= 360_000_000)
    && (forall i :: 0 <= i < |s.rip.db| && s.rip.db[i].valid ==>
          s.now - s.rip.db[i].lastUpdate <= 480_000_000)
  }

  lemma {:induction false} RunInv(s: System, run: seq<Step>) returns (dead: nat, timeout: nat, gc: nat)
    requires Booted(s)
    ensures Inv(Exec(s, run), dead, timeout, gc)
  {
    if run == [] { return 0, 0, 0; }
    var t, step := Exec(s, run[..|run| - 1]), run[|run| - 1];
    dead, timeout, gc := RunInv(s, run[..|run| - 1]);
    if step.Outside? {
      dead, timeout, gc := HandleKeeps(t, step.actions, step.pushes, dead, timeout, gc);
    } else if t.queue != [] {
      dead, timeout, gc := DispatchKeeps(t, step.actions, step.pushes, dead, timeout, gc);
    }
  }

  /** In every reachable state: a neighbour silent for 80 s is down, an active RIP route is at most 360 s old,
      and any stored RIP route at most 480 s. */
  lemma StalenessBounded(s: System, run: seq<Step>)
    requires Booted(s)
    ensures Bounded(Exec(s, run))
  {
    var dead, timeout, gc := RunInv(s, run);
    var t := Exec(s, run);
    forall i | 0 <= i < |t.rip.db| && t.rip.db[i].valid
      ensures t.now - t.rip.db[i].lastUpdate <= 480_000_000
      ensures t.rip.db[i].phase == Rip.Active ==> t.now - t.rip.db[i].lastUpdate <= 360_000_000
    {
      assert RouteFresh(t.rip.db[i], timeout, gc);
    }
    forall i | 0 <= i < |t.nbrs| && t.nbrs[i].valid && t.nbrs[i].state != Down
      ensures t.now - t.nbrs[i].lastHello < 80_000_000
    {
      assert NbrFresh(t.nbrs[i], dead);
    }
  }
}
