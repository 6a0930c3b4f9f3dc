/** The other side of the staleness bounds: what is refreshed in time survives every sweep of every run. */
module Survival {
  import opened NetTypes
  import opened Prefix
  import opened OspfTypes
  import opened OspfNeighbors
  import opened EventQueues
  import opened Staleness
  import Rip = RipDatabase

  // ---------- Neighbours ----------

  /** Neighbour slot `i` holds router `id`, up and heard at `heard` or later. */
  ghost predicate Up(s: System, i: nat, id: u32, heard: nat) {
    && i < |s.nbrs| && s.nbrs[i].valid && s.nbrs[i].routerId == id && s.nbrs[i].state != Down
    && heard <= s.nbrs[i].lastHello
  }

  lemma ActKeepsUp(s: System, a: Action, i: nat, id: u32, heard: nat)
    requires Up(s, i, id, heard) && heard <= s.now && !a.StartOspf?
    ensures Up(Act(s, a), i, id, heard) && Act(s, a).now == s.now
  {
  }

  lemma {:induction false} ActAllKeepsUp(s: System, actions: seq<Action>, i: nat, id: u32, heard: nat)
    requires Up(s, i, id, heard) && heard <= s.now && forall k :: 0 <= k < |actions| ==> !actions[k].StartOspf?
    ensures Up(ActAll(s, actions), i, id, heard) && ActAll(s, actions).now == s.now
  {
    if actions != [] {
      ActAllKeepsUp(s, actions[..|actions| - 1], i, id, heard);
      ActKeepsUp(ActAll(s, actions[..|actions| - 1]), actions[|actions| - 1], i, id, heard);
    }
  }

  /** The state after one step of a run. */
  ghost function After(s: System, step: Step): System {
    if step.Outside? then Handle(s, step.actions, step.pushes)
    else if s.queue == [] then s
    else Dispatch(s, step.actions, step.pushes)
  }

  lemma AfterClock(s: System, step: Step)
    ensures s.now <= After(s, step).now
  {
    ActAllClock(s, step.actions);
    if s.queue != [] { ActAllClock(s.(now := Later(s), queue := s.queue[1..]), step.actions); }
  }

  ghost predicate NoOspfStart(run: seq<Step>) {
    forall i, k :: 0 <= i < |run| && 0 <= k < |run[i].actions| ==> !run[i].actions[k].StartOspf?
  }

  lemma StepKeepsUp(s: System, step: Step, i: nat, id: u32, heard: nat)
    requires Up(s, i, id, heard) && heard <= s.now && After(s, step).now < heard + 40_000_000
    requires forall k :: 0 <= k < |step.actions| ==> !step.actions[k].StartOspf?
    ensures Up(After(s, step), i, id, heard)
  {
    if step.Outside? {
      ActAllKeepsUp(s, step.actions, i, id, heard);
    } else if s.queue != [] && s.queue[0].payload == Other {
      ActAllKeepsUp(s.(now := Later(s), queue := s.queue[1..]), step.actions, i, id, heard);
    }
  }

  /** A neighbour that is up stays up for 40 s after it was heard, whatever happens, unless OSPF is started anew. */
  lemma {:induction false} NeighbourSurvives(s: System, run: seq<Step>, i: nat, id: u32, heard: nat)
    requires Up(s, i, id, heard) && heard <= s.now && NoOspfStart(run) && Exec(s, run).now < heard + 40_000_000
    ensures Up(Exec(s, run), i, id, heard) && s.now <= Exec(s, run).now
  {
    if run != [] {
      var front, step := run[..|run| - 1], run[|run| - 1];
      var t := Exec(s, front);
      assert Exec(s, run) == After(t, step);
      AfterClock(t, step);
      NeighbourSurvives(s, front, i, id, heard);
      StepKeepsUp(t, step, i, id, heard);
    }
  }

  // ---------- Routes ----------

  /** Database slot `i` holds the network, refreshed at `refreshed` or later, and in use if `active`. */
  ghost predicate Stored(s: System, i: nat, prefix: u32, len: nat, refreshed: nat, active: bool) {
    && i < |s.rip.db| && s.rip.db[i].valid && s.rip.db[i].prefix == prefix && s.rip.db[i].len == len
    && refreshed <= s.rip.db[i].lastUpdate && (active ==> s.rip.db[i].phase == Rip.Active)
  }

  /** The action withdraws the network. */
  ghost predicate Withdraws(a: Action, prefix: u32, len: nat) {
    && a.Entry? && a.advert.afi == 2 && a.advert.metric >= 15
    && a.advert.mask == PrefixMask(len) && Masked(a.advert.prefix, len) == prefix
  }

  /** Nothing in the actions starts RIP anew, or withdraws the network where it should stay in use. */
  ghost predicate Spares(actions: seq<Action>, prefix: u32, len: nat, active: bool) {
    forall k :: 0 <= k < |actions| ==> !actions[k].StartRip? && !(active && Withdraws(actions[k], prefix, len))
  }

  lemma ActKeepsStored(s: System, a: Action, i: nat, prefix: u32, len: nat, refreshed: nat, active: bool)
    requires Stored(s, i, prefix, len, refreshed, active) && refreshed <= s.now
    requires !a.StartRip? && !(active && Withdraws(a, prefix, len))
    ensures Stored(Act(s, a), i, prefix, len, refreshed, active) && Act(s, a).now == s.now
  {
    if a.Entry? && MaskLen(a.advert.mask).Some? { MaskLenIff(a.advert.mask, MaskLen(a.advert.mask).value); }
  }

  lemma {:induction false} ActAllKeepsStored(s: System, actions: seq<Action>, i: nat, prefix: u32, len: nat,
                                             refreshed: nat, active: bool)
    requires Stored(s, i, prefix, len, refreshed, active) && refreshed <= s.now && Spares(actions, prefix, len, active)
    ensures Stored(ActAll(s, actions), i, prefix, len, refreshed, active) && ActAll(s, actions).now == s.now
  {
    if actions != [] {
      var front := actions[..|actions| - 1];
      ActAllKeepsStored(s, front, i, prefix, len, refreshed, active);
      ActKeepsStored(ActAll(s, front), actions[|actions| - 1], i, prefix, len, refreshed, active);
    }
  }

  /** How long a refresh lasts: 180 s in use, 300 s in the database. */
  ghost function Lasting(active: bool): nat {
    if active then 180_000_000 else 300_000_000
  }

  lemma StepKeepsStored(s: System, step: Step, i: nat, prefix: u32, len: nat, refreshed: nat, active: bool)
    requires Stored(s, i, prefix, len, refreshed, active) && refreshed <= s.now
    requires After(s, step).now <= refreshed + Lasting(active) && Spares(step.actions, prefix, len, active)
    ensures Stored(After(s, step), i, prefix, len, refreshed, active)
  {
    if step.Outside? {
      ActAllKeepsStored(s, step.actions, i, prefix, len, refreshed, active);
    } else if s.queue != [] {
      match s.queue[0].payload
      case DeadTimer =>
      case TimeoutTimer => TimeoutSlots(s.rip, Later(s), |s.rip.db|, i);
      case GcTimer => GcSlots(s.rip.db, Later(s), |s.rip.db|, i);
      case Other =>
        ActAllKeepsStored(s.(now := Later(s), queue := s.queue[1..]), step.actions, i, prefix, len, refreshed, active);
    }
  }

  /** A route stays in use for 180 s after it was refreshed unless it is withdrawn, and in the database for 300 s even
      then, whatever happens, unless RIP is started anew. */
  lemma {:induction false} RouteSurvives(s: System, run: seq<Step>, i: nat, prefix: u32, len: nat, refreshed: nat,
                                         active: bool)
    requires Stored(s, i, prefix, len, refreshed, active) && refreshed <= s.now
    requires Exec(s, run).now <= refreshed + Lasting(active)
    requires forall k :: 0 <= k < |run| ==> Spares(run[k].actions, prefix, len, active)
    ensures Stored(Exec(s, run), i, prefix, len, refreshed, active) && s.now <= Exec(s, run).now
  {
    if run != [] {
      var front, step := run[..|run| - 1], run[|run| - 1];
      var t := Exec(s, front);
      assert Exec(s, run) == After(t, step);
      AfterClock(t, step);
      RouteSurvives(s, front, i, prefix, len, refreshed, active);
      StepKeepsStored(t, step, i, prefix, len, refreshed, active);
    }
  }
}
