/** Reliable flooding as a distributed protocol: routers, point-to-point links and packets in flight. */
module Flooding {
  import opened NetTypes
  import opened OspfTypes
  import opened LsuCodec
  import opened Lsdbs

  /** One end of a link: a router and one of its OSPF interfaces. */
  datatype End = End(router: nat, iface: nat)

  /** `routers` routers joined by links; `peer` takes each end of a link to the other. */
  datatype Topology = Topology(routers: nat, peer: map<End, End>)

  ghost predicate WellFormedTopology(t: Topology) {
    forall p :: p in t.peer ==> p.router < t.routers && t.peer[p] in t.peer && t.peer[t.peer[p]] == p
  }

  /** An update on its way to the interface `to`. */
  datatype Packet = Packet(to: End, body: seq<byte>)

  datatype Net = Net(dbs: seq<Db>, flight: multiset<Packet>)

  ghost function FloodSet(t: Topology, ends: set<End>, r: nat, except: Option<nat>, a: Lsa): set<Packet>
    requires WellFormedLsa(a) && ends <= t.peer.Keys
  {
    set p | p in ends && p.router == r && Some(p.iface) != except :: Packet(t.peer[p], FloodBody(a))
  }

  /** `ospf_flood_lsa`: one packet per enabled interface other than `except`; nothing for an impossible link count. */
  ghost function Flood(t: Topology, r: nat, except: Option<nat>, a: Lsa): multiset<Packet> {
    if WellFormedLsa(a) then multiset(FloodSet(t, t.peer.Keys, r, except, a)) else multiset{}
  }

  ghost function FloodEach(t: Topology, r: nat, except: Option<nat>, lsas: seq<Lsa>): multiset<Packet> {
    if lsas == [] then multiset{}
    else FloodEach(t, r, except, lsas[..|lsas| - 1]) + Flood(t, r, except, lsas[|lsas| - 1])
  }

  datatype Step =
    | Originate(router: nat, lsa: Lsa)  // a router stores an advertisement of its own and floods it everywhere
    | Deliver(packet: Packet)           // a packet in flight reaches its interface

  ghost predicate Enabled(t: Topology, s: Net, step: Step) {
    match step
    case Originate(r, a) => r < t.routers && WellFormedLsa(a)
    case Deliver(pkt) => pkt in s.flight
  }

  ghost function Apply(t: Topology, s: Net, step: Step): Net {
    match step
    case Originate(r, a) =>
      if r >= |s.dbs| then s
      else
        var out := if Target(s.dbs[r], a) >= 0 then Flood(t, r, None, a) else multiset{};
        Net(s.dbs[r := MergeOne(s.dbs[r], a)], s.flight + out)
    case Deliver(pkt) =>
      var r := pkt.to.router;
      if r >= |s.dbs| then s
      else
        var (db, out) := ReceiveLsu(s.dbs[r], pkt.body);
        Net(s.dbs[r := db], s.flight - multiset{pkt} + FloodEach(t, r, Some(pkt.to.iface), out))
  }

  ghost function Fresh(t: Topology, size: nat): Net {
    Net(seq(t.routers, _ => seq(size, _ => None)), multiset{})
  }

  ghost function Exec(t: Topology, size: nat, run: seq<Step>): Net {
    if run == [] then Fresh(t, size) else Apply(t, Exec(t, size, run[..|run| - 1]), run[|run| - 1])
  }

  ghost predicate IsRun(t: Topology, size: nat, run: seq<Step>) {
    run == [] || (IsRun(t, size, run[..|run| - 1]) && Enabled(t, Exec(t, size, run[..|run| - 1]), run[|run| - 1]))
  }

  /** Every advertisement originated in a run. */
  ghost function Originated(run: seq<Step>): set<Lsa> {
    set i | 0 <= i < |run| && run[i].Originate? :: run[i].lsa
  }

  // ---------- The invariant ----------

  ghost predicate AtLeast(db: Db, a: Lsa) {
    Held(db, KeyOf(a)).Some? && Held(db, KeyOf(a)).value.seqNum >= a.seqNum
  }

  ghost predicate GoodDb(db: Db, size: nat, orig: set<Lsa>) {
    |db| == size && UniqueKeys(db) && forall i :: 0 <= i < |db| && db[i].Some? ==> db[i].value in orig
  }

  ghost predicate GoodOrig(orig: set<Lsa>, size: nat) {
    (forall a :: a in orig ==> WellFormedLsa(a)) && |KeysOf(orig)| <= size
  }

  /** A packet carries an originated advertisement that its sender holds at least as new. */
  ghost predicate Carries(t: Topology, s: Net, pkt: Packet, a: Lsa) {
    && WellFormedLsa(a) && pkt.body == FloodBody(a) && pkt.to in t.peer
    && t.peer[pkt.to].router < |s.dbs| && AtLeast(s.dbs[t.peer[pkt.to].router], a)
  }

  /** The neighbour at the far end of `p` holds `a` at least as new, or will receive it. */
  ghost predicate Covered(t: Topology, s: Net, p: End, a: Lsa)
    requires p in t.peer && t.peer[p].router < |s.dbs|
  {
    AtLeast(s.dbs[t.peer[p].router], a) || exists b :: Underway(s, t.peer[p], a, b)
  }

  ghost predicate Underway(s: Net, to: End, a: Lsa, b: Lsa) {
    WellFormedLsa(b) && Packet(to, FloodBody(b)) in s.flight && KeyOf(b) == KeyOf(a) && b.seqNum >= a.seqNum
  }

  ghost predicate PacketsGood(t: Topology, s: Net, orig: set<Lsa>) {
    forall pkt :: pkt in s.flight ==> exists a :: a in orig && Carries(t, s, pkt, a)
  }

  /** Each advertisement a router holds is held at least as new by each neighbour, or is in flight to it. */
  ghost predicate NeighboursTold(t: Topology, s: Net)
    requires WellFormedTopology(t) && |s.dbs| == t.routers
  {
    forall p, a :: p in t.peer && Held(s.dbs[p.router], KeyOf(a)) == Some(a) ==> Covered(t, s, p, a)
  }

  ghost predicate NothingForgotten(s: Net, orig: set<Lsa>) {
    forall a :: a in orig ==> exists r :: 0 <= r < |s.dbs| && AtLeast(s.dbs[r], a)
  }

  ghost predicate Inv(t: Topology, s: Net, orig: set<Lsa>, size: nat) {
    && WellFormedTopology(t) && |s.dbs| == t.routers && GoodOrig(orig, size)
    && (forall r :: 0 <= r < |s.dbs| ==> GoodDb(s.dbs[r], size, orig))
    && PacketsGood(t, s, orig) && NeighboursTold(t, s) && NothingForgotten(s, orig)
  }

  lemma FloodBodyInjective(a: Lsa, b: Lsa)
    requires WellFormedLsa(a) && WellFormedLsa(b) && FloodBody(a) == FloodBody(b)
    ensures a == b
  {
    FloodRoundTrip(a);
    FloodRoundTrip(b);
  }

  /** One router merges `a` and, if it was news, floods it to every interface but `except`. */
  ghost predicate Learns(t: Topology, s: Net, s': Net, r: nat, except: Option<nat>, a: Lsa, taken: multiset<Packet>) {
    && r < |s.dbs| && WellFormedLsa(a)
    && s'.dbs == s.dbs[r := MergeOne(s.dbs[r], a)]
    && s'.flight == s.flight - taken + (if Target(s.dbs[r], a) >= 0 then Flood(t, r, except, a) else multiset{})
  }

  /** What a router holds only gets newer, and after learning it holds at least what it learned. */
  lemma LearnsMonotone(s: Net, s': Net, r: nat, a: Lsa, size: nat, orig: set<Lsa>)
    requires r < |s.dbs| && s'.dbs == s.dbs[r := MergeOne(s.dbs[r], a)]
    requires GoodDb(s.dbs[r], size, orig) && a in orig && |KeysOf(orig)| <= size
    ensures GoodDb(s'.dbs[r], size, orig) && AtLeast(s'.dbs[r], a)
    ensures forall q, x :: 0 <= q < |s.dbs| && AtLeast(s.dbs[q], x) ==> AtLeast(s'.dbs[q], x)
    ensures forall key :: key != KeyOf(a) ==> Held(s'.dbs[r], key) == Held(s.dbs[r], key)
    ensures Held(s'.dbs[r], KeyOf(a)) == if Target(s.dbs[r], a) >= 0 then Some(a) else Held(s.dbs[r], KeyOf(a))
  {
    var db := s.dbs[r];
    HasRoom(db, KeysOf(orig), KeyOf(a));
    MergeOneHeld(db, a, KeyOf(a));
    forall key ensures key != KeyOf(a) ==> Held(s'.dbs[r], key) == Held(db, key) {
      MergeOneHeld(db, a, key);
    }
    forall x | AtLeast(db, x) ensures AtLeast(s'.dbs[r], x) {
      MergeOneHeld(db, a, KeyOf(x));
    }
  }

  /** The packet taken off the network, if any, is the one that carried `a` to router `r`. */
  ghost predicate TakenIs(t: Topology, s: Net, taken: multiset<Packet>, r: nat, except: Option<nat>, a: Lsa) {
    || (taken == multiset{} && except == None)
    || (exists pkt :: taken == multiset{pkt} && pkt.to.router == r && except == Some(pkt.to.iface) &&
                      Carries(t, s, pkt, a))
  }

  lemma FloodedPacket(t: Topology, r: nat, except: Option<nat>, a: Lsa, pkt: Packet)
    requires WellFormedTopology(t) && WellFormedLsa(a) && pkt in Flood(t, r, except, a)
    ensures pkt.to in t.peer && t.peer[pkt.to].router == r && pkt.body == FloodBody(a)
  {
    assert pkt in FloodSet(t, t.peer.Keys, r, except, a);
  }

  lemma CarriesOn(t: Topology, s: Net, s': Net, pkt: Packet, x: Lsa)
    requires Carries(t, s, pkt, x) && |s'.dbs| == |s.dbs|
    requires forall q, y :: 0 <= q < |s.dbs| && AtLeast(s.dbs[q], y) ==> AtLeast(s'.dbs[q], y)
    ensures Carries(t, s', pkt, x)
  {
  }

  lemma LearnsPackets(t: Topology, s: Net, s': Net, r: nat, except: Option<nat>, a: Lsa, taken: multiset<Packet>,
                      orig: set<Lsa>)
    requires WellFormedTopology(t) && |s.dbs| == t.routers && Learns(t, s, s', r, except, a, taken)
    requires PacketsGood(t, s, orig) && a in orig && AtLeast(s'.dbs[r], a)
    requires forall q, x :: 0 <= q < |s.dbs| && AtLeast(s.dbs[q], x) ==> AtLeast(s'.dbs[q], x)
    ensures PacketsGood(t, s', orig)
  {
    forall pkt | pkt in s'.flight ensures exists x :: x in orig && Carries(t, s', pkt, x) {
      if pkt in s.flight {
        var x :| x in orig && Carries(t, s, pkt, x);
        CarriesOn(t, s, s', pkt, x);
      } else {
        FloodedPacket(t, r, except, a, pkt);
        assert Carries(t, s', pkt, a);
      }
    }
  }

  lemma LearnsTold(t: Topology, s: Net, s': Net, r: nat, except: Option<nat>, a: Lsa, taken: multiset<Packet>, p: End,
                   x: Lsa)
    requires WellFormedTopology(t) && |s.dbs| == t.routers && Learns(t, s, s', r, except, a, taken)
    requires NeighboursTold(t, s) && TakenIs(t, s, taken, r, except, a) && AtLeast(s'.dbs[r], a)
    requires forall q, y :: 0 <= q < |s.dbs| && AtLeast(s.dbs[q], y) ==> AtLeast(s'.dbs[q], y)
    requires p in t.peer
    requires Held(s.dbs[p.router], KeyOf(x)) == Some(x) || (p.router == r && x == a && Target(s.dbs[r], a) >= 0)
    ensures Covered(t, s', p, x)
  {
    if Held(s.dbs[p.router], KeyOf(x)) == Some(x) {
      assert Covered(t, s, p, x);
      if !AtLeast(s.dbs[t.peer[p].router], x) {
        var b :| Underway(s, t.peer[p], x, b);
        var sent := Packet(t.peer[p], FloodBody(b));
        if sent in s'.flight {
          assert Underway(s', t.peer[p], x, b);
        } else {
          assert sent in taken;
          FloodBodyInjective(a, b);
        }
      }
    } else if Some(p.iface) == except {
      assert p.router == r;
      var pkt :| taken == multiset{pkt} && pkt.to.router == r && except == Some(pkt.to.iface) && Carries(t, s, pkt, a);
      assert p == pkt.to;
    } else {
      assert Packet(t.peer[p], FloodBody(a)) in FloodSet(t, t.peer.Keys, r, except, a);
      assert Underway(s', t.peer[p], a, a);
    }
  }

  /** Learning keeps the invariant. */
  lemma LearnsKeeps(t: Topology, s: Net, s': Net, r: nat, except: Option<nat>, a: Lsa, taken: multiset<Packet>,
                    orig: set<Lsa>, size: nat)
    requires WellFormedTopology(t) && |s.dbs| == t.routers && GoodOrig(orig, size) && a in orig
    requires forall q :: 0 <= q < |s.dbs| ==> GoodDb(s.dbs[q], size, orig)
    requires PacketsGood(t, s, orig) && NeighboursTold(t, s) && NothingForgotten(s, orig - {a})
    requires Learns(t, s, s', r, except, a, taken) && TakenIs(t, s, taken, r, except, a)
    ensures Inv(t, s', orig, size)
  {
    LearnsMonotone(s, s', r, a, size, orig);
    LearnsPackets(t, s, s', r, except, a, taken, orig);
    LearnsTellsAll(t, s, s', r, except, a, taken);
    LearnsForgetsNothing(s, s', r, a, orig);
  }

  lemma LearnsTellsAll(t: Topology, s: Net, s': Net, r: nat, except: Option<nat>, a: Lsa, taken: multiset<Packet>)
    requires WellFormedTopology(t) && |s.dbs| == t.routers && Learns(t, s, s', r, except, a, taken)
    requires NeighboursTold(t, s) && TakenIs(t, s, taken, r, except, a) && AtLeast(s'.dbs[r], a)
    requires forall q, y :: 0 <= q < |s.dbs| && AtLeast(s.dbs[q], y) ==> AtLeast(s'.dbs[q], y)
    requires forall key :: key != KeyOf(a) ==> Held(s'.dbs[r], key) == Held(s.dbs[r], key)
    requires Held(s'.dbs[r], KeyOf(a)) == if Target(s.dbs[r], a) >= 0 then Some(a) else Held(s.dbs[r], KeyOf(a))
    ensures NeighboursTold(t, s')
  {
    forall p, x | p in t.peer && Held(s'.dbs[p.router], KeyOf(x)) == Some(x) ensures Covered(t, s', p, x) {
      LearnsTold(t, s, s', r, except, a, taken, p, x);
    }
  }

  lemma LearnsForgetsNothing(s: Net, s': Net, r: nat, a: Lsa, orig: set<Lsa>)
    requires |s'.dbs| == |s.dbs| && r < |s.dbs| && NothingForgotten(s, orig - {a}) && AtLeast(s'.dbs[r], a)
    requires forall q, x :: 0 <= q < |s.dbs| && AtLeast(s.dbs[q], x) ==> AtLeast(s'.dbs[q], x)
    ensures NothingForgotten(s', orig)
  {
    forall x | x in orig ensures exists q :: 0 <= q < |s'.dbs| && AtLeast(s'.dbs[q], x) {
      if x != a {
        assert x in orig - {a};
        var q :| 0 <= q < |s.dbs| && AtLeast(s.dbs[q], x);
        assert AtLeast(s'.dbs[q], x);
      }
    }
  }

  /** Which packets one advertisement makes: one to the far end of every link of the router, but for the given end. */
  lemma FloodIff(t: Topology, r: nat, except: Option<nat>, a: Lsa, q: Packet)
    requires WellFormedLsa(a)
    ensures q in Flood(t, r, except, a) <==>
            exists p :: p in t.peer && p.router == r && Some(p.iface) != except && q == Packet(t.peer[p], FloodBody(a))
  {
    assert q in Flood(t, r, except, a) <==> q in FloodSet(t, t.peer.Keys, r, except, a);
  }

  lemma PeerInjective(t: Topology, p: End, q: End)
    requires WellFormedTopology(t) && p in t.peer && q in t.peer && t.peer[p] == t.peer[q]
    ensures p == q
  {
    assert t.peer[t.peer[p]] == p && t.peer[t.peer[q]] == q;
  }

  /** A router that floods an advertisement that came over `to` sends it over all its other links and not over that. */
  ghost predicate ForwardsOn(t: Topology, to: End, a: Lsa, q: Packet)
    requires to in t.peer && WellFormedLsa(a)
  {
    && q.body == FloodBody(a) && q.to != t.peer[to]
    && exists p :: p in t.peer && p.router == to.router && p != to && q.to == t.peer[p]
  }

  lemma FloodForwardsOn(t: Topology, to: End, a: Lsa, q: Packet)
    requires WellFormedTopology(t) && to in t.peer && WellFormedLsa(a)
    ensures q in Flood(t, to.router, Some(to.iface), a) <==> ForwardsOn(t, to, a, q)
  {
    FloodIff(t, to.router, Some(to.iface), a, q);
    if p :| p in t.peer && p.router == to.router && p != to && q == Packet(t.peer[p], FloodBody(a)) {
      if t.peer[p] == t.peer[to] { PeerInjective(t, p, to); }
      assert Some(p.iface) != Some(to.iface);
    }
  }

  /** What a delivery sends: if the advertisement was news, that, and otherwise nothing. */
  lemma DeliverySends(t: Topology, s: Net, pkt: Packet, a: Lsa, q: Packet)
    requires WellFormedTopology(t) && |s.dbs| == t.routers && pkt in s.flight && Carries(t, s, pkt, a)
    ensures var sent := if Target(s.dbs[pkt.to.router], a) >= 0 then Flood(t, pkt.to.router, Some(pkt.to.iface), a)
                        else multiset{};
            && Apply(t, s, Deliver(pkt)).flight == s.flight - multiset{pkt} + sent
            && (q in sent <==> Target(s.dbs[pkt.to.router], a) >= 0 && ForwardsOn(t, pkt.to, a, q))
  {
    DeliverLearns(t, s, pkt, a);
    FloodForwardsOn(t, pkt.to, a, q);
  }

  /** Delivery of a packet is its router learning the advertisement it carries. */
  lemma DeliverLearns(t: Topology, s: Net, pkt: Packet, a: Lsa)
    requires WellFormedTopology(t) && |s.dbs| == t.routers && pkt in s.flight && Carries(t, s, pkt, a)
    ensures Learns(t, s, Apply(t, s, Deliver(pkt)), pkt.to.router, Some(pkt.to.iface), a, multiset{pkt})
  {
    var r, except := pkt.to.router, Some(pkt.to.iface);
    ReceiveFlood(s.dbs[r], a);
    assert [a][..0] == [];
    assert FloodEach(t, r, except, [a]) == FloodEach(t, r, except, []) + Flood(t, r, except, a);
    assert FloodEach(t, r, except, []) + Flood(t, r, except, a) == Flood(t, r, except, a);
  }

  lemma OriginateKeeps(t: Topology, s: Net, r: nat, a: Lsa, orig: set<Lsa>, size: nat)
    requires Inv(t, s, orig, size) && r < t.routers && WellFormedLsa(a) && |KeysOf(orig + {a})| <= size
    ensures Inv(t, Apply(t, s, Originate(r, a)), orig + {a}, size)
  {
    var orig' := orig + {a};
    assert PacketsGood(t, s, orig') by {
      forall pkt | pkt in s.flight ensures exists x :: x in orig' && Carries(t, s, pkt, x) {
        var x :| x in orig && Carries(t, s, pkt, x);
        assert x in orig' && Carries(t, s, pkt, x);
      }
    }
    assert s.flight - multiset{} == s.flight;
    LearnsKeeps(t, s, Apply(t, s, Originate(r, a)), r, None, a, multiset{}, orig', size);
  }

  lemma CarriedKeeps(t: Topology, s: Net, s': Net, pkt: Packet, a: Lsa, orig: set<Lsa>, size: nat)
    requires Inv(t, s, orig, size) && a in orig && Carries(t, s, pkt, a)
    requires Learns(t, s, s', pkt.to.router, Some(pkt.to.iface), a, multiset{pkt})
    ensures Inv(t, s', orig, size)
  {
    assert TakenIs(t, s, multiset{pkt}, pkt.to.router, Some(pkt.to.iface), a);
    LearnsKeeps(t, s, s', pkt.to.router, Some(pkt.to.iface), a, multiset{pkt}, orig, size);
  }

  lemma DeliverKeeps(t: Topology, s: Net, pkt: Packet, orig: set<Lsa>, size: nat)
    requires Inv(t, s, orig, size) && pkt in s.flight
    ensures Inv(t, Apply(t, s, Deliver(pkt)), orig, size)
  {
    var a :| a in orig && Carries(t, s, pkt, a);
    DeliverLearns(t, s, pkt, a);
    CarriedKeeps(t, s, Apply(t, s, Deliver(pkt)), pkt, a, orig, size);
  }

  /** Every step of the protocol keeps the invariant. */
  lemma StepKeeps(t: Topology, s: Net, step: Step, orig: set<Lsa>, size: nat)
    requires Inv(t, s, orig, size) && Enabled(t, s, step)
    requires step.Originate? ==> |KeysOf(orig + {step.lsa})| <= size
    ensures Inv(t, Apply(t, s, step), if step.Originate? then orig + {step.lsa} else orig, size)
  {
    match step
    case Originate(r, a) => OriginateKeeps(t, s, r, a, orig, size);
    case Deliver(pkt) => DeliverKeeps(t, s, pkt, orig, size);
  }

  lemma FreshInv(t: Topology, size: nat)
    requires WellFormedTopology(t)
    ensures Inv(t, Fresh(t, size), {}, size)
  {
    assert KeysOf({}) == {};
    var s := Fresh(t, size);
    forall r | 0 <= r < |s.dbs| ensures UniqueKeys(s.dbs[r]) && forall key :: Held(s.dbs[r], key).None? {
      assert forall i :: 0 <= i < |s.dbs[r]| ==> s.dbs[r][i].None?;
    }
  }

  lemma OriginatedSnoc(run: seq<Step>)
    requires run != []
    ensures var front, last := run[..|run| - 1], run[|run| - 1];
            Originated(run) == if last.Originate? then Originated(front) + {last.lsa} else Originated(front)
  {
    var n := |run| - 1;
    forall a | a in Originated(run) ensures a in Originated(run[..n]) || (run[n].Originate? && a == run[n].lsa) {
      var i :| 0 <= i < |run| && run[i].Originate? && run[i].lsa == a;
      if i < n { assert run[..n][i].Originate? && run[..n][i].lsa == a; }
    }
    forall a | a in Originated(run[..n]) ensures a in Originated(run) {
      var i :| 0 <= i < n && run[..n][i].Originate? && run[..n][i].lsa == a;
      assert run[i].Originate? && run[i].lsa == a;
    }
    if run[n].Originate? { assert run[n].lsa in Originated(run); }
  }

  /** The invariant holds in every reachable state, as long as the originated keys fit the databases. */
  lemma {:induction false} ReachableInv(t: Topology, size: nat, run: seq<Step>)
    requires WellFormedTopology(t) && IsRun(t, size, run) && |KeysOf(Originated(run))| <= size
    ensures Inv(t, Exec(t, size, run), Originated(run), size)
  {
    if run == [] {
      FreshInv(t, size);
    } else {
      var front := run[..|run| - 1];
      OriginatedSnoc(run);
      SubsetCard(KeysOf(Originated(front)), KeysOf(Originated(run)));
      ReachableInv(t, size, front);
      StepKeeps(t, Exec(t, size, front), run[|run| - 1], Originated(front), size);
    }
  }

  // ---------- Agreement ----------

  /** Consecutive routers of the path are neighbours. */
  ghost predicate IsPath(t: Topology, path: seq<nat>) {
    forall i :: 0 < i < |path| ==> Neighbours(t, path[i - 1], path[i])
  }

  ghost predicate Neighbours(t: Topology, q: nat, r: nat) {
    exists p :: p in t.peer && p.router == q && t.peer[p].router == r
  }

  /** With nothing in flight a router holds at least what any neighbour holds. */
  lemma QuietNeighbour(t: Topology, s: Net, orig: set<Lsa>, size: nat, q: nat, r: nat, a: Lsa)
    requires Inv(t, s, orig, size) && s.flight == multiset{} && q < t.routers && r < t.routers
    requires Neighbours(t, q, r) && AtLeast(s.dbs[q], a)
    ensures AtLeast(s.dbs[r], a)
  {
    var p :| p in t.peer && p.router == q && t.peer[p].router == r;
    var x := Held(s.dbs[q], KeyOf(a)).value;
    assert Covered(t, s, p, x);
  }

  lemma {:induction false} QuietPath(t: Topology, s: Net, orig: set<Lsa>, size: nat, path: seq<nat>, a: Lsa)
    requires Inv(t, s, orig, size) && s.flight == multiset{} && path != [] && IsPath(t, path)
    requires path[0] < t.routers && AtLeast(s.dbs[path[0]], a)
    ensures path[|path| - 1] < t.routers && AtLeast(s.dbs[path[|path| - 1]], a)
  {
    if |path| > 1 {
      var front, n := path[..|path| - 1], |path| - 1;
      QuietPath(t, s, orig, size, front, a);
      assert Neighbours(t, path[n - 1], path[n]);
      QuietNeighbour(t, s, orig, size, path[n - 1], path[n], a);
    }
  }

  ghost predicate Connected(t: Topology) {
    forall q: nat, r: nat :: q < t.routers && r < t.routers ==> Linked(t, q, r)
  }

  ghost predicate Linked(t: Topology, q: nat, r: nat) {
    exists path :: path != [] && path[0] == q && path[|path| - 1] == r && IsPath(t, path)
  }

  /** Neighbours agree: with nothing in flight two linked routers hold the same sequence number under every key. */
  lemma NeighboursAgree(t: Topology, size: nat, run: seq<Step>, q: nat, r: nat, key: LsaKey)
    requires WellFormedTopology(t) && IsRun(t, size, run) && |KeysOf(Originated(run))| <= size
    requires Exec(t, size, run).flight == multiset{} && q < t.routers && r < t.routers && Neighbours(t, q, r)
    ensures var s := Exec(t, size, run);
            && |s.dbs| == t.routers
            && Held(s.dbs[q], key).Some? == Held(s.dbs[r], key).Some?
            && (Held(s.dbs[q], key).Some? ==> Held(s.dbs[q], key).value.seqNum == Held(s.dbs[r], key).value.seqNum)
  {
    var s := Exec(t, size, run);
    ReachableInv(t, size, run);
    var p :| p in t.peer && p.router == q && t.peer[p].router == r;
    assert Neighbours(t, r, q) by { assert t.peer[p] in t.peer && t.peer[t.peer[p]] == p; }
    if Held(s.dbs[q], key).Some? {
      QuietNeighbour(t, s, Originated(run), size, q, r, Held(s.dbs[q], key).value);
    }
    if Held(s.dbs[r], key).Some? {
      QuietNeighbour(t, s, Originated(run), size, r, q, Held(s.dbs[r], key).value);
    }
  }

  /** Flooding converges: in a connected network with nothing in flight, every router holds the newest
      originated advertisement under every key, and nothing else. */
  lemma FloodingConverges(t: Topology, size: nat, run: seq<Step>, r: nat, a: Lsa)
    requires WellFormedTopology(t) && Connected(t) && IsRun(t, size, run) && |KeysOf(Originated(run))| <= size
    requires Exec(t, size, run).flight == multiset{} && r < t.routers && a in Originated(run)
    ensures var s := Exec(t, size, run);
            && |s.dbs| == t.routers && Held(s.dbs[r], KeyOf(a)).Some?
            && Held(s.dbs[r], KeyOf(a)).value in Originated(run)
            && Held(s.dbs[r], KeyOf(a)).value.seqNum >= a.seqNum
  {
    var s := Exec(t, size, run);
    ReachableInv(t, size, run);
    var q :| 0 <= q < |s.dbs| && AtLeast(s.dbs[q], a);
    assert Linked(t, q, r);
    var path :| path != [] && path[0] == q && path[|path| - 1] == r && IsPath(t, path);
    QuietPath(t, s, Originated(run), size, path, a);
    HeldIsSlot(s.dbs[r], KeyOf(a));
  }

  /** What one router then holds under a key, every other router holds at least as new. */
  lemma HeldElsewhere(t: Topology, size: nat, run: seq<Step>, q: nat, r: nat, key: LsaKey)
    requires WellFormedTopology(t) && Connected(t) && IsRun(t, size, run) && |KeysOf(Originated(run))| <= size
    requires Exec(t, size, run).flight == multiset{} && q < t.routers && r < t.routers
    ensures var dbs := Exec(t, size, run).dbs;
            && |dbs| == t.routers
            && (Held(dbs[q], key).Some? ==>
                  NotNewer(Held(dbs[q], key).value, Held(dbs[r], key), key, Originated(run)))
  {
    var s := Exec(t, size, run);
    ReachableInv(t, size, run);
    HeldIsSlot(s.dbs[q], key);
    if Held(s.dbs[q], key).Some? { FloodingConverges(t, size, run, r, Held(s.dbs[q], key).value); }
  }

  /** `x` is an originated advertisement under `key` and not newer than what is held in `y`. */
  ghost predicate NotNewer(x: Lsa, y: Option<Lsa>, key: LsaKey, orig: set<Lsa>) {
    x in orig && KeyOf(x) == key && y.Some? && x.seqNum <= y.value.seqNum
  }

  /** If a key and a sequence number determine the content, all routers then hold the same database. */
  lemma AllRoutersAgree(t: Topology, size: nat, run: seq<Step>, q: nat, r: nat, key: LsaKey)
    requires WellFormedTopology(t) && Connected(t) && IsRun(t, size, run) && |KeysOf(Originated(run))| <= size
    requires Exec(t, size, run).flight == multiset{} && q < t.routers && r < t.routers
    requires var lsas := Originated(run);
             forall a, b :: a in lsas && b in lsas && KeyOf(a) == KeyOf(b) && a.seqNum == b.seqNum ==> a == b
    ensures var dbs := Exec(t, size, run).dbs;
            |dbs| == t.routers && Held(dbs[q], key) == Held(dbs[r], key)
  {
    HeldElsewhere(t, size, run, q, r, key);
    HeldElsewhere(t, size, run, r, q, key);
  }

  // ---------- Termination ----------

  /** Originated advertisements a database has not caught up with. */
  ghost function Behind(db: Db, orig: set<Lsa>): set<Lsa> {
    set a | a in orig && !AtLeast(db, a)
  }

  ghost function TotalBehind(dbs: seq<Db>, orig: set<Lsa>): nat {
    if dbs == [] then 0 else TotalBehind(dbs[..|dbs| - 1], orig) + |Behind(dbs[|dbs| - 1], orig)|
  }

  /** Packets in flight, plus as many again as every future change of a database could send. */
  ghost function Potential(t: Topology, s: Net, orig: set<Lsa>): nat {
    |s.flight| + |t.peer| * TotalBehind(s.dbs, orig)
  }

  ghost function Deliveries(run: seq<Step>): nat {
    if run == [] then 0 else Deliveries(run[..|run| - 1]) + if run[|run| - 1].Deliver? then 1 else 0
  }

  ghost function Originations(run: seq<Step>): nat {
    if run == [] then 0 else Originations(run[..|run| - 1]) + if run[|run| - 1].Originate? then 1 else 0
  }

  lemma {:induction false} FloodSetSmall(t: Topology, ends: set<End>, r: nat, except: Option<nat>, a: Lsa)
    requires WellFormedLsa(a) && ends <= t.peer.Keys
    ensures |FloodSet(t, ends, r, except, a)| <= |ends|
    decreases |ends|
  {
    if ends != {} {
      var p :| p in ends;
      FloodSetSmall(t, ends - {p}, r, except, a);
      var one := {Packet(t.peer[p], FloodBody(a))};
      assert FloodSet(t, ends, r, except, a) <= FloodSet(t, ends - {p}, r, except, a) + one;
      SubsetCard(FloodSet(t, ends, r, except, a), FloodSet(t, ends - {p}, r, except, a) + one);
    }
  }

  lemma FloodSmall(t: Topology, r: nat, except: Option<nat>, a: Lsa)
    ensures |Flood(t, r, except, a)| <= |t.peer|
  {
    if WellFormedLsa(a) {
      FloodSetSmall(t, t.peer.Keys, r, except, a);
      assert |t.peer.Keys| == |t.peer|;
    }
  }

  lemma {:induction false} TotalBehindUpdate(dbs: seq<Db>, r: nat, db: Db, orig: set<Lsa>)
    requires r < |dbs|
    ensures TotalBehind(dbs[r := db], orig) == TotalBehind(dbs, orig) - |Behind(dbs[r], orig)| + |Behind(db, orig)|
  {
    var n := |dbs| - 1;
    if r < n {
      TotalBehindUpdate(dbs[..n], r, db, orig);
      assert dbs[r := db][..n] == dbs[..n][r := db];
    } else {
      assert dbs[r := db][..n] == dbs[..n];
    }
  }

  lemma {:induction false} TotalBehindGrows(dbs: seq<Db>, orig: set<Lsa>, a: Lsa)
    ensures TotalBehind(dbs, orig + {a}) <= TotalBehind(dbs, orig) + |dbs|
  {
    if dbs != [] {
      var n := |dbs| - 1;
      TotalBehindGrows(dbs[..n], orig, a);
      SubsetCard(Behind(dbs[n], orig + {a}), Behind(dbs[n], orig) + {a});
    }
  }

  /** Learning something new catches the router up by at least one advertisement. */
  lemma LearnsCatchesUp(s: Net, s': Net, r: nat, a: Lsa, size: nat, orig: set<Lsa>)
    requires r < |s.dbs| && s'.dbs == s.dbs[r := MergeOne(s.dbs[r], a)]
    requires GoodDb(s.dbs[r], size, orig) && a in orig && |KeysOf(orig)| <= size
    ensures TotalBehind(s'.dbs, orig) + (if Target(s.dbs[r], a) >= 0 then 1 else 0) <= TotalBehind(s.dbs, orig)
  {
    LearnsMonotone(s, s', r, a, size, orig);
    TotalBehindUpdate(s.dbs, r, s'.dbs[r], orig);
    var before, after := Behind(s.dbs[r], orig), Behind(s'.dbs[r], orig);
    assert after <= before;
    if Target(s.dbs[r], a) >= 0 {
      assert a in before && a !in after;
      SubsetCard(after + {a}, before);
    } else {
      SubsetCard(after, before);
    }
  }

  lemma Descent(d: nat, x: nat, y: nat, f: nat, f': nat)
    requires (f' + 1 <= f && x <= y) || (f' + 1 <= f + d && x + 1 <= y)
    ensures f' + d * x + 1 <= f + d * y
  {
    var gap := y - x;
    assert d * y == d * x + d * gap;
    if gap >= 1 { assert d * gap == d + d * (gap - 1); }
  }

  lemma TakeOne(flight: multiset<Packet>, pkt: Packet, more: multiset<Packet>)
    requires pkt in flight
    ensures |flight - multiset{pkt} + more| == |flight| - 1 + |more|
  {
  }

  /** A delivery uses up at least one unit of the potential. */
  lemma DeliverDescends(t: Topology, s: Net, s': Net, pkt: Packet, a: Lsa, orig: set<Lsa>, size: nat)
    requires pkt.to.router < |s.dbs| && GoodDb(s.dbs[pkt.to.router], size, orig)
    requires a in orig && |KeysOf(orig)| <= size && pkt in s.flight
    requires Learns(t, s, s', pkt.to.router, Some(pkt.to.iface), a, multiset{pkt})
    ensures Potential(t, s', orig) + 1 <= Potential(t, s, orig)
  {
    var r, except := pkt.to.router, Some(pkt.to.iface);
    LearnsCatchesUp(s, s', r, a, size, orig);
    FloodSmall(t, r, except, a);
    TakeOne(s.flight, pkt, if Target(s.dbs[r], a) >= 0 then Flood(t, r, except, a) else multiset{});
    Descent(|t.peer|, TotalBehind(s'.dbs, orig), TotalBehind(s.dbs, orig), |s.flight|, |s'.flight|);
  }

  lemma Ascent(d: nat, n: nat, x: nat, y: nat, f: nat, f': nat)
    requires f' <= f + d && x <= y + n
    ensures f' + d * x <= f + d * y + d * (n + 1)
  {
    assert d * (y + n) == d * x + d * (y + n - x);
    assert d * (y + n) + d == d * y + d * (n + 1);
  }

  /** An origination adds at most one round of packets per router, and one for the originator. */
  lemma OriginateAscends(t: Topology, s: Net, s': Net, r: nat, a: Lsa, orig: set<Lsa>, size: nat)
    requires r < |s.dbs| == t.routers && GoodDb(s.dbs[r], size, orig) && |KeysOf(orig + {a})| <= size
    requires s' == Apply(t, s, Originate(r, a))
    ensures Potential(t, s', orig + {a}) <= Potential(t, s, orig) + Burst(t)
  {
    assert GoodDb(s.dbs[r], size, orig + {a});
    LearnsCatchesUp(s, s', r, a, size, orig + {a});
    TotalBehindGrows(s.dbs, orig, a);
    FloodSmall(t, r, None, a);
    Ascent(|t.peer|, t.routers, TotalBehind(s'.dbs, orig + {a}), TotalBehind(s.dbs, orig), |s.flight|, |s'.flight|);
  }

  lemma StepPotential(t: Topology, s: Net, step: Step, orig: set<Lsa>, size: nat)
    requires Inv(t, s, orig, size) && Enabled(t, s, step)
    requires step.Originate? ==> |KeysOf(orig + {step.lsa})| <= size
    ensures step.Originate? ==>
              Potential(t, Apply(t, s, step), orig + {step.lsa}) <= Potential(t, s, orig) + Burst(t)
    ensures step.Deliver? ==> Potential(t, Apply(t, s, step), orig) + 1 <= Potential(t, s, orig)
  {
    match step
    case Originate(r, a) =>
      OriginateAscends(t, s, Apply(t, s, step), r, a, orig, size);
    case Deliver(pkt) =>
      DeliverPotential(t, s, pkt, orig, size);
  }

  lemma DeliverPotential(t: Topology, s: Net, pkt: Packet, orig: set<Lsa>, size: nat)
    requires Inv(t, s, orig, size) && pkt in s.flight
    ensures Potential(t, Apply(t, s, Deliver(pkt)), orig) + 1 <= Potential(t, s, orig)
  {
    var a :| a in orig && Carries(t, s, pkt, a);
    DeliverLearns(t, s, pkt, a);
    DeliverDescends(t, s, Apply(t, s, Deliver(pkt)), pkt, a, orig, size);
  }

  /** Packets one origination can cause: a round for the originator and one per router that learns of it. */
  ghost function Burst(t: Topology): nat {
    |t.peer| * (t.routers + 1)
  }

  ghost function Credit(burst: nat, run: seq<Step>): nat {
    if run == [] then 0 else Credit(burst, run[..|run| - 1]) + if run[|run| - 1].Originate? then burst else 0
  }

  lemma {:induction false} CreditIsProduct(burst: nat, run: seq<Step>)
    ensures Credit(burst, run) == burst * Originations(run)
  {
    if run != [] {
      var k := Originations(run[..|run| - 1]);
      CreditIsProduct(burst, run[..|run| - 1]);
      assert burst * (k + 1) == burst * k + burst;
    }
  }

  lemma {:induction false} RunPotential(t: Topology, size: nat, run: seq<Step>)
    requires WellFormedTopology(t) && IsRun(t, size, run) && |KeysOf(Originated(run))| <= size
    ensures Deliveries(run) + Potential(t, Exec(t, size, run), Originated(run)) <= Credit(Burst(t), run)
  {
    if run == [] {
      FreshPotential(t, size);
      assert Originated(run) == {};
    } else {
      var front := run[..|run| - 1];
      OriginatedSnoc(run);
      SubsetCard(KeysOf(Originated(front)), KeysOf(Originated(run)));
      RunPotential(t, size, front);
      ReachableInv(t, size, front);
      StepPotential(t, Exec(t, size, front), run[|run| - 1], Originated(front), size);
    }
  }

  lemma FreshPotential(t: Topology, size: nat)
    ensures Potential(t, Fresh(t, size), {}) == 0
  {
    NothingBehind(Fresh(t, size).dbs);
  }

  lemma {:induction false} NothingBehind(dbs: seq<Db>)
    ensures TotalBehind(dbs, {}) == 0
  {
    if dbs != [] {
      NothingBehind(dbs[..|dbs| - 1]);
      assert Behind(dbs[|dbs| - 1], {}) == {};
    }
  }

  /** Flooding stops: a run with finitely many originations has a bounded number of deliveries. */
  lemma FloodingStops(t: Topology, size: nat, run: seq<Step>)
    requires WellFormedTopology(t) && IsRun(t, size, run) && |KeysOf(Originated(run))| <= size
    ensures Deliveries(run) <= Burst(t) * Originations(run)
  {
    RunPotential(t, size, run);
    CreditIsProduct(Burst(t), run);
  }

  /** One more delivery: still a run, with the same originations and less potential. */
  lemma DeliverOne(t: Topology, size: nat, run: seq<Step>, pkt: Packet, run': seq<Step>)
    requires WellFormedTopology(t) && IsRun(t, size, run) && |KeysOf(Originated(run))| <= size
    requires pkt in Exec(t, size, run).flight && run' == run + [Deliver(pkt)]
    ensures IsRun(t, size, run') && Originated(run') == Originated(run)
    ensures Potential(t, Exec(t, size, run'), Originated(run)) < Potential(t, Exec(t, size, run), Originated(run))
  {
    assert run'[..|run|] == run;
    OriginatedSnoc(run');
    ReachableInv(t, size, run);
    StepPotential(t, Exec(t, size, run), Deliver(pkt), Originated(run), size);
  }

  /** `longer` is `run` with deliveries added at the end. */
  ghost predicate Continues(run: seq<Step>, longer: seq<Step>) {
    |run| <= |longer| && longer[..|run|] == run && forall i :: |run| <= i < |longer| ==> longer[i].Deliver?
  }

  lemma ContinuesOn(run: seq<Step>, pkt: Packet, longer: seq<Step>)
    requires Continues(run + [Deliver(pkt)], longer)
    ensures Continues(run, longer)
  {
    var run' := run + [Deliver(pkt)];
    assert longer[..|run|] == longer[..|run'|][..|run|] == run;
    assert longer[|run|] == longer[..|run'|][|run|];
  }

  /** Every run goes on, by deliveries alone, to a state with nothing in flight. */
  lemma {:induction false} DrainsToQuiet(t: Topology, size: nat, run: seq<Step>) returns (quiet: seq<Step>)
    requires WellFormedTopology(t) && IsRun(t, size, run) && |KeysOf(Originated(run))| <= size
    ensures Continues(run, quiet) && IsRun(t, size, quiet) && Originated(quiet) == Originated(run)
    ensures Exec(t, size, quiet).flight == multiset{}
    decreases Potential(t, Exec(t, size, run), Originated(run))
  {
    var flight := Exec(t, size, run).flight;
    if flight == multiset{} {
      quiet := run;
    } else {
      var pkt :| pkt in flight;
      DeliverOne(t, size, run, pkt, run + [Deliver(pkt)]);
      quiet := DrainsToQuiet(t, size, run + [Deliver(pkt)]);
      ContinuesOn(run, pkt, quiet);
    }
  }
}
