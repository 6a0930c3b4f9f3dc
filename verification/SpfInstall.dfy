/** Installing the shortest-path tree into the routing table. */
module SpfInstall {
  import opened NetTypes
  import opened Slots
  import opened Prefix
  import opened RouteTables
  import opened OspfTypes
  import opened ShortestPaths
  import opened SpfLoops
  import OspfNeighbors

  /** A neighbour that can carry traffic towards router `id`. */
  predicate Usable(nbr: Neighbor, id: u32) {
    nbr.valid && nbr.routerId == id && nbr.state != Down && nbr.iface != NoIface
  }

  /** The first usable neighbour slot for a router, or -1. */
  function FindNeighbor(nbrs: seq<Neighbor>, id: u32): (i: int)
    ensures -1 <= i < |nbrs|
    ensures i >= 0 ==> Usable(nbrs[i], id)
    ensures forall k :: 0 <= k < (if i < 0 then |nbrs| else i) ==> !Usable(nbrs[k], id)
  {
    First(nbrs, (n: Neighbor) => Usable(n, id))
  }

  function HostKey(id: u32): RouteKey {
    RouteKey(id, 32, OSPF)
  }

  /** Installation of vertex `k`; None when the RIB is full. */
  function InstallVertex(rib: seq<RibEntry>, seqNo: u32, vs: seq<Vertex>, nbrs: seq<Neighbor>,
                         k: nat): Option<(seq<RibEntry>, u32)>
    requires 0 < k < |vs| && HopsInRange(vs)
  {
    var v := vs[k];
    if v.distance == INFINITY then Some((rib, seqNo))
    else
      var j := FindNeighbor(nbrs, vs[v.firstHop].routerId);
      if j < 0 then Some((rib, seqNo))
      else
        var added := AddRib(rib, seqNo, HostKey(v.routerId), nbrs[j].ipAddr, nbrs[j].iface, v.distance);
        if added.None? then None else Some((added.value, NextSequence(rib, seqNo, HostKey(v.routerId))))
  }

  /** Installation of the first `k` vertices. */
  function Install(rib: seq<RibEntry>, seqNo: u32, vs: seq<Vertex>, nbrs: seq<Neighbor>,
                   k: nat): Option<(seq<RibEntry>, u32)>
    requires k <= |vs| && HopsInRange(vs)
  {
    if k <= 1 then Some((rib, seqNo))
    else
      var r := Install(rib, seqNo, vs, nbrs, k - 1);
      if r.None? then None else InstallVertex(r.value.0, r.value.1, vs, nbrs, k - 1)
  }

  /** What the tree asks for at vertex `i`: its first hop's neighbour at the shortest distance, if there is one. */
  ghost function Wanted(vs: seq<Vertex>, nbrs: seq<Neighbor>, i: int): Option<Hop>
    requires HopsInRange(vs) && 0 < i < |vs|
  {
    if vs[i].distance == INFINITY then None
    else
      var j := FindNeighbor(nbrs, vs[vs[i].firstHop].routerId);
      if j < 0 then None else Some(Hop(nbrs[j].ipAddr, nbrs[j].iface, vs[i].distance))
  }

  /** The OSPF part of the RIB is exactly the tree up to vertex `k`; every other route is as in `base`. */
  ghost predicate ExactUpTo(rib: seq<RibEntry>, base: seq<RibEntry>, vs: seq<Vertex>, nbrs: seq<Neighbor>, k: nat)
    requires HopsInRange(vs) && k <= |vs|
  {
    && (forall key: RouteKey :: key.proto != OSPF ==> RouteAt(rib, key) == RouteAt(base, key))
    && (forall i :: 0 < i < k ==> HopAt(rib, HostKey(vs[i].routerId)) == Wanted(vs, nbrs, i))
    && (forall key: RouteKey :: key.proto == OSPF && NotAmong(key, vs, k) ==> RouteAt(rib, key) == None)
  }

  ghost predicate NotAmong(key: RouteKey, vs: seq<Vertex>, k: nat)
    requires k <= |vs|
  {
    forall i :: 0 < i < k ==> key != HostKey(vs[i].routerId)
  }

  lemma HostKeyGood(id: u32)
    ensures GoodKey(HostKey(id))
  {
    MaskedIdempotent(id, 32);
  }

  /** The later RIB holds what the tree wants at vertex `k`, and otherwise what the earlier one held. */
  ghost predicate Differs(rib: seq<RibEntry>, rib': seq<RibEntry>, vs: seq<Vertex>, nbrs: seq<Neighbor>, k: nat)
    requires HopsInRange(vs) && 0 < k < |vs|
  {
    && HopAt(rib', HostKey(vs[k].routerId)) == Wanted(vs, nbrs, k)
    && forall key: RouteKey :: key != HostKey(vs[k].routerId) ==> RouteAt(rib', key) == RouteAt(rib, key)
  }

  lemma NotYetInstalled(rib: seq<RibEntry>, base: seq<RibEntry>, vs: seq<Vertex>, nbrs: seq<Neighbor>, k: nat)
    requires HopsInRange(vs) && DistinctIds(vs) && k < |vs| && ExactUpTo(rib, base, vs, nbrs, k)
    ensures RouteAt(rib, HostKey(vs[k].routerId)) == None
  {
    assert NotAmong(HostKey(vs[k].routerId), vs, k);
  }

  /** Installing one more vertex extends the exact part by that vertex. */
  lemma InstallStep(rib: seq<RibEntry>, rib': seq<RibEntry>, base: seq<RibEntry>, vs: seq<Vertex>,
                    nbrs: seq<Neighbor>, k: nat)
    requires HopsInRange(vs) && DistinctIds(vs) && 0 < k < |vs| && ExactUpTo(rib, base, vs, nbrs, k)
    requires Differs(rib, rib', vs, nbrs, k)
    ensures ExactUpTo(rib', base, vs, nbrs, k + 1)
  {
    forall i | 0 < i < k ensures HopAt(rib', HostKey(vs[i].routerId)) == Wanted(vs, nbrs, i) {
      assert HostKey(vs[i].routerId) != HostKey(vs[k].routerId);
    }
    forall key: RouteKey | key.proto == OSPF && NotAmong(key, vs, k + 1) ensures RouteAt(rib', key) == None {
      assert NotAmong(key, vs, k) && key != HostKey(vs[k].routerId);
    }
  }

  lemma AddKeeps(rib: seq<RibEntry>, seqNo: u32, key: RouteKey, hop: Hop, rib': seq<RibEntry>)
    requires WellFormed(rib) && GoodKey(key) && hop.iface != NoIface
    requires AddRib(rib, seqNo, key, hop.nextHop, hop.iface, hop.metric) == Some(rib')
    ensures WellFormed(rib') && HopAt(rib', key) == Some(hop)
    ensures forall other: RouteKey :: other != key ==> RouteAt(rib', other) == RouteAt(rib, other)
  {
    forall other | other != key ensures RouteAt(rib', other) == RouteAt(rib, other) {
      AddStores(rib, seqNo, key, hop.nextHop, hop.iface, hop.metric, other);
    }
    AddStores(rib, seqNo, key, hop.nextHop, hop.iface, hop.metric, key);
  }

  /** One vertex of the installation: stores what the tree wants there and touches nothing else. */
  lemma InstallOne(base: seq<RibEntry>, seqNo: u32, vs: seq<Vertex>, nbrs: seq<Neighbor>, k: nat, rib: seq<RibEntry>,
                   rib': seq<RibEntry>)
    requires HopsInRange(vs) && 0 < k < |vs| && WellFormed(rib)
    requires Install(base, seqNo, vs, nbrs, k).Some? && Install(base, seqNo, vs, nbrs, k).value.0 == rib
    requires Install(base, seqNo, vs, nbrs, k + 1).Some? && Install(base, seqNo, vs, nbrs, k + 1).value.0 == rib'
    requires RouteAt(rib, HostKey(vs[k].routerId)) == None
    ensures WellFormed(rib') && Differs(rib, rib', vs, nbrs, k)
  {
    var want := Wanted(vs, nbrs, k);
    if want.Some? {
      HostKeyGood(vs[k].routerId);
      AddKeeps(rib, Install(base, seqNo, vs, nbrs, k).value.1, HostKey(vs[k].routerId), want.value, rib');
    }
  }

  lemma ExactStep(base: seq<RibEntry>, seqNo: u32, vs: seq<Vertex>, nbrs: seq<Neighbor>, k: nat,
                  before: seq<RibEntry>, rib: seq<RibEntry>)
    requires HopsInRange(vs) && DistinctIds(vs) && 0 < k < |vs|
    requires WellFormed(before) && ExactUpTo(before, base, vs, nbrs, k)
    requires Install(base, seqNo, vs, nbrs, k).Some? && Install(base, seqNo, vs, nbrs, k).value.0 == before
    requires Install(base, seqNo, vs, nbrs, k + 1).Some? && Install(base, seqNo, vs, nbrs, k + 1).value.0 == rib
    ensures WellFormed(rib) && ExactUpTo(rib, base, vs, nbrs, k + 1)
  {
    NotYetInstalled(before, base, vs, nbrs, k);
    InstallOne(base, seqNo, vs, nbrs, k, before, rib);
    InstallStep(before, rib, base, vs, nbrs, k);
  }

  ghost predicate NoOspf(rib: seq<RibEntry>) {
    forall key: RouteKey :: key.proto == OSPF ==> RouteAt(rib, key) == None
  }

  lemma NothingInstalled(base: seq<RibEntry>, vs: seq<Vertex>, nbrs: seq<Neighbor>)
    requires NoOspf(base) && HopsInRange(vs) && vs != []
    ensures ExactUpTo(base, base, vs, nbrs, 1)
  {
  }

  /** A completed installation holds exactly the tree and keeps every route of another protocol. */
  lemma {:induction false} InstallExact(base: seq<RibEntry>, seqNo: u32, vs: seq<Vertex>, nbrs: seq<Neighbor>, k: nat,
                                        rib: seq<RibEntry>)
    requires WellFormed(base) && HopsInRange(vs) && DistinctIds(vs) && 1 <= k <= |vs| && NoOspf(base)
    requires Install(base, seqNo, vs, nbrs, k).Some? && Install(base, seqNo, vs, nbrs, k).value.0 == rib
    ensures WellFormed(rib) && ExactUpTo(rib, base, vs, nbrs, k)
  {
    if k > 1 {
      var before := Install(base, seqNo, vs, nbrs, k - 1).value.0;
      InstallExact(base, seqNo, vs, nbrs, k - 1, before);
      ExactStep(base, seqNo, vs, nbrs, k - 1, before, rib);
    } else {
      NothingInstalled(base, vs, nbrs);
    }
  }

  /** An installed route leads along a true shortest path: its metric is the least cost of any path,
      and its next hop is a usable neighbour that is the first router on a path of that cost. */
  lemma RoutesAreShortest(db: seq<Option<Lsa>>, root: u32, nbrs: seq<Neighbor>, vs: seq<Vertex>, base: seq<RibEntry>,
                          rib: seq<RibEntry>, id: u32)
    requires IsShortestPathTree(db, root, vs) && HopsInRange(vs) && ExactUpTo(rib, base, vs, nbrs, |vs|)
    requires HopAt(rib, HostKey(id)).Some?
    ensures id != root
    ensures var hop := HopAt(rib, HostKey(id)).value;
            && (forall q :: IsWalk(db, root, q, id) ==> hop.metric <= Cost(q))
            && exists first, j :: Reached(db, root, id, hop.metric, first) &&
                                  0 <= j < |nbrs| && nbrs[j].valid && nbrs[j].routerId == first &&
                                  nbrs[j].state != Down && nbrs[j].iface != NoIface &&
                                  nbrs[j].ipAddr == hop.nextHop && nbrs[j].iface == hop.iface
  {
    assert !NotAmong(HostKey(id), vs, |vs|);
    var i :| 0 < i < |vs| && HostKey(id) == HostKey(vs[i].routerId);
    assert HopAt(rib, HostKey(vs[i].routerId)) == Wanted(vs, nbrs, i);
    assert HopRight(db, root, vs, i);
    var first := vs[vs[i].firstHop].routerId;
    var j := FindNeighbor(nbrs, first);
    assert Reached(db, root, id, vs[i].distance, first) && Usable(nbrs[j], first);
  }

  lemma UnwantedExplained(db: seq<Option<Lsa>>, root: u32, nbrs: seq<Neighbor>, vs: seq<Vertex>, p: seq<Edge>, i: nat)
    requires IsShortestPathTree(db, root, vs) && HopsInRange(vs) && 0 < i < |vs|
    requires IsWalk(db, root, p, vs[i].routerId) && Wanted(vs, nbrs, i) == None
    ensures exists first, d: nat :: Reached(db, root, vs[i].routerId, d, first) && d <= Cost(p) &&
                                    forall j :: 0 <= j < |nbrs| && nbrs[j].valid && nbrs[j].routerId == first ==>
                                                  nbrs[j].state == Down || nbrs[j].iface == NoIface
  {
    TreeAt(db, root, vs, p, i);
    assert Reached(db, root, vs[i].routerId, vs[i].distance, vs[vs[i].firstHop].routerId);
  }

  /** A reachable router without a route has a shortest path whose first router is no usable neighbour. */
  lemma MissingRouteExplained(db: seq<Option<Lsa>>, root: u32, nbrs: seq<Neighbor>, vs: seq<Vertex>,
                              base: seq<RibEntry>, rib: seq<RibEntry>, id: u32, p: seq<Edge>)
    requires IsShortestPathTree(db, root, vs) && Covers(db, vs)
    requires HopsInRange(vs) && ExactUpTo(rib, base, vs, nbrs, |vs|)
    requires id != root && IsWalk(db, root, p, id) && HopAt(rib, HostKey(id)) == None
    ensures exists first, d: nat :: Reached(db, root, id, d, first) && d <= Cost(p) &&
                                    forall j :: 0 <= j < |nbrs| && nbrs[j].valid && nbrs[j].routerId == first ==>
                                                  nbrs[j].state == Down || nbrs[j].iface == NoIface
  {
    WalkHasVertex(db, root, vs, p, id);
    var i :| 0 <= i < |vs| && vs[i].routerId == id;
    assert HopAt(rib, HostKey(vs[i].routerId)) == Wanted(vs, nbrs, i);
    UnwantedExplained(db, root, nbrs, vs, p, i);
  }

  /** A lookup that answers with an OSPF route answers with the host route of the destination itself. */
  lemma OspfAnswer(rib: seq<RibEntry>, before: seq<RibEntry>, vs: seq<Vertex>, nbrs: seq<Neighbor>, dst: u32)
    returns (i: nat)
    requires WellFormed(rib) && HopsInRange(vs) && ExactUpTo(rib, before, vs, nbrs, |vs|)
    requires LookupSpec(rib, dst).Some? && LookupSpec(rib, dst).value.proto == OSPF
    ensures 0 < i < |vs| && vs[i].routerId == dst && Wanted(vs, nbrs, i).Some?
    ensures Wanted(vs, nbrs, i).value.nextHop == LookupSpec(rib, dst).value.nextHop
  {
    var w := BestFrom(rib, dst, 32);
    BestFromCovers(rib, dst, 32);
    var key := RouteKey(rib[w].prefix, rib[w].len, OSPF);
    KeySlotUnique(rib, key, w);
    assert RouteAt(rib, key).Some?;
    assert !NotAmong(key, vs, |vs|);
    i :| 0 < i < |vs| && key == HostKey(vs[i].routerId);
    MaskedIdempotent(dst, 32);
    assert HopAt(rib, HostKey(vs[i].routerId)) == Wanted(vs, nbrs, i);
  }

  // ---------- Running it again ----------

  /** Equal slot by slot, except for the insertion numbers of OSPF routes. */
  ghost predicate SameButOspfSequence(a: seq<RibEntry>, b: seq<RibEntry>) {
    |a| == |b| && forall i :: 0 <= i < |a| ==>
      && a[i].valid == b[i].valid
      && (a[i].valid ==> a[i] == b[i].(sequence := a[i].sequence) && (a[i].proto != OSPF ==> a[i] == b[i]))
  }

  lemma {:induction false} SlotsAgree(a: seq<RibEntry>, b: seq<RibEntry>, key: RouteKey)
    requires SameButOspfSequence(a, b)
    ensures KeySlot(a, key) == KeySlot(b, key) && FreeSlot(a) == FreeSlot(b)
  {
    if a != [] { SlotsAgree(a[..|a| - 1], b[..|b| - 1], key); }
  }

  lemma {:induction false} InstallAgrees(a: seq<RibEntry>, sa: u32, b: seq<RibEntry>, sb: u32, vs: seq<Vertex>,
                                         nbrs: seq<Neighbor>, k: nat)
    requires SameButOspfSequence(a, b) && k <= |vs| && HopsInRange(vs)
    ensures var ra, rb := Install(a, sa, vs, nbrs, k), Install(b, sb, vs, nbrs, k);
            ra.Some? == rb.Some? && (ra.Some? ==> SameButOspfSequence(ra.value.0, rb.value.0))
  {
    if k > 1 {
      InstallAgrees(a, sa, b, sb, vs, nbrs, k - 1);
      var ra, rb := Install(a, sa, vs, nbrs, k - 1), Install(b, sb, vs, nbrs, k - 1);
      if ra.Some? { SlotsAgree(ra.value.0, rb.value.0, HostKey(vs[k - 1].routerId)); }
    }
  }

  /** Installing a vertex writes at most one slot, one that was free or held an OSPF route. */
  lemma VertexWritesOspf(rib: seq<RibEntry>, seqNo: u32, vs: seq<Vertex>, nbrs: seq<Neighbor>, k: nat,
                         rib': seq<RibEntry>)
    requires 0 < k < |vs| && HopsInRange(vs)
    requires InstallVertex(rib, seqNo, vs, nbrs, k).Some? && InstallVertex(rib, seqNo, vs, nbrs, k).value.0 == rib'
    ensures |rib'| == |rib| && forall i :: 0 <= i < |rib| ==>
              rib'[i] == rib[i] || (rib'[i].valid && rib'[i].proto == OSPF && (rib[i].valid ==> rib[i].proto == OSPF))
  {
  }

  /** Flushing forgets an installation. */
  lemma {:induction false} FlushForgets(base: seq<RibEntry>, seqNo: u32, vs: seq<Vertex>, nbrs: seq<Neighbor>, k: nat,
                                        rib: seq<RibEntry>)
    requires k <= |vs| && HopsInRange(vs)
    requires Install(base, seqNo, vs, nbrs, k).Some? && Install(base, seqNo, vs, nbrs, k).value.0 == rib
    requires forall i :: 0 <= i < |base| && base[i].valid ==> base[i].proto != OSPF
    ensures SameButOspfSequence(FlushRib(rib, OSPF), base)
  {
    if k > 1 {
      var (before, s) := Install(base, seqNo, vs, nbrs, k - 1).value;
      FlushForgets(base, seqNo, vs, nbrs, k - 1, before);
      VertexWritesOspf(before, s, vs, nbrs, k - 1, rib);
    }
  }

  /** Between two protocols the insertion number of an OSPF route never decides. */
  lemma SameBetter(x: RibEntry, y: RibEntry, x': RibEntry, y': RibEntry)
    requires x.proto != y.proto && x == x'.(sequence := x.sequence) && y == y'.(sequence := y.sequence)
    requires (x.proto != OSPF ==> x == x') && (y.proto != OSPF ==> y == y')
    ensures Better(x, y) <==> Better(x', y')
  {
  }

  lemma {:induction false} WinnersAgree(a: seq<RibEntry>, b: seq<RibEntry>, prefix: u32, len: nat)
    requires SameButOspfSequence(a, b) && WellFormed(a)
    ensures Winner(a, prefix, len) == Winner(b, prefix, len)
  {
    if a != [] {
      var n := |a| - 1;
      WinnersAgree(a[..n], b[..n], prefix, len);
      var w := Winner(a[..n], prefix, len);
      if w >= 0 && Serves(a[n], prefix, len) {
        assert !HasKey(a[n], a[w].prefix, a[w].len, a[w].proto);
        SameBetter(a[n], a[w], b[n], b[w]);
      }
    }
  }

  lemma {:induction false} BestAgree(a: seq<RibEntry>, b: seq<RibEntry>, dst: u32, len: nat)
    requires SameButOspfSequence(a, b) && WellFormed(a)
    ensures BestFrom(a, dst, len) == BestFrom(b, dst, len)
  {
    WinnersAgree(a, b, Masked(dst, len), len);
    if len > 0 { BestAgree(a, b, dst, len - 1); }
  }

  /** Installing the same tree again on its own result succeeds and changes the answer for no destination. */
  lemma ReinstallChangesNoLookup(base: seq<RibEntry>, s1: u32, s2: u32, vs: seq<Vertex>, nbrs: seq<Neighbor>, dst: u32)
    requires WellFormed(base) && HopsInRange(vs) && DistinctIds(vs) && vs != []
    requires forall i :: 0 <= i < |base| && base[i].valid ==> base[i].proto != OSPF
    requires Install(base, s1, vs, nbrs, |vs|).Some?
    ensures var once := Install(base, s1, vs, nbrs, |vs|).value.0;
            var again := Install(FlushRib(once, OSPF), s2, vs, nbrs, |vs|);
            again.Some? && LookupSpec(again.value.0, dst) == LookupSpec(once, dst)
  {
    var once := Install(base, s1, vs, nbrs, |vs|).value.0;
    var flushed := FlushRib(once, OSPF);
    FlushForgets(base, s1, vs, nbrs, |vs|, once);
    InstallAgrees(flushed, s2, base, s1, vs, nbrs, |vs|);
    assert NoOspf(base);
    InstallExact(base, s1, vs, nbrs, |vs|, once);
    var again := Install(flushed, s2, vs, nbrs, |vs|).value.0;
    assert SameButOspfSequence(once, again);
    BestAgree(once, again, dst, 32);
    BestFromCovers(once, dst, 32);
  }

  // ---------- Room in the table ----------

  /** How many of the first `k` vertices the tree wants a route for. */
  ghost function Demand(vs: seq<Vertex>, nbrs: seq<Neighbor>, k: nat): nat
    requires HopsInRange(vs) && k <= |vs|
  {
    if k <= 1 then 0 else Demand(vs, nbrs, k - 1) + if Wanted(vs, nbrs, k - 1).Some? then 1 else 0
  }

  lemma CountFull(rib: seq<RibEntry>)
    ensures CountValid(rib) <= |rib| && (CountValid(rib) == |rib| <==> FreeSlot(rib) < 0)
  {
    CountAll(rib, InUse);
  }

  /** Installing a vertex without a route takes one unused slot if the tree wants a route there, and needs no more. */
  lemma VertexCounts(rib: seq<RibEntry>, seqNo: u32, vs: seq<Vertex>, nbrs: seq<Neighbor>, k: nat)
    requires HopsInRange(vs) && 0 < k < |vs| && RouteAt(rib, HostKey(vs[k].routerId)) == None
    ensures var r, n := InstallVertex(rib, seqNo, vs, nbrs, k), if Wanted(vs, nbrs, k).Some? then 1 else 0;
            && (r.Some? <==> CountValid(rib) + n <= |rib|)
            && (r.Some? ==> |r.value.0| == |rib| && CountValid(r.value.0) == CountValid(rib) + n)
  {
    CountFull(rib);
    var j := FreeSlot(rib);
    var r := InstallVertex(rib, seqNo, vs, nbrs, k);
    if Wanted(vs, nbrs, k).Some? && j >= 0 { CountUpdate(rib, InUse, j, r.value.0[j]); }
  }

  /** The installation succeeds exactly when the wanted routes fit the unused slots, and uses one slot for each. */
  lemma {:induction false} InstallFits(base: seq<RibEntry>, seqNo: u32, vs: seq<Vertex>, nbrs: seq<Neighbor>, k: nat)
    requires WellFormed(base) && HopsInRange(vs) && DistinctIds(vs) && 1 <= k <= |vs| && NoOspf(base)
    ensures var r := Install(base, seqNo, vs, nbrs, k);
            && (r.Some? <==> CountValid(base) + Demand(vs, nbrs, k) <= |base|)
            && (r.Some? ==> |r.value.0| == |base| && CountValid(r.value.0) == CountValid(base) + Demand(vs, nbrs, k))
  {
    if k == 1 {
      CountFull(base);
    } else {
      InstallFits(base, seqNo, vs, nbrs, k - 1);
      var before := Install(base, seqNo, vs, nbrs, k - 1);
      if before.Some? { NextFits(base, seqNo, vs, nbrs, k - 1, before.value.0, before.value.1); }
    }
  }

  lemma NextFits(base: seq<RibEntry>, seqNo: u32, vs: seq<Vertex>, nbrs: seq<Neighbor>, k: nat, rib: seq<RibEntry>,
                 s: u32)
    requires WellFormed(base) && HopsInRange(vs) && DistinctIds(vs) && 0 < k < |vs| && NoOspf(base)
    requires Install(base, seqNo, vs, nbrs, k) == Some((rib, s))
    ensures var r, n := InstallVertex(rib, s, vs, nbrs, k), if Wanted(vs, nbrs, k).Some? then 1 else 0;
            && (r.Some? <==> CountValid(rib) + n <= |rib|)
            && (r.Some? ==> |r.value.0| == |rib| && CountValid(r.value.0) == CountValid(rib) + n)
  {
    InstallExact(base, seqNo, vs, nbrs, k, rib);
    NotYetInstalled(rib, base, vs, nbrs, k);
    VertexCounts(rib, s, vs, nbrs, k);
  }

  // ---------- The whole of ospf_run_spf ----------

  method FindNeighborLoop(nbrs: seq<Neighbor>, id: u32) returns (i: int)
    ensures i == FindNeighbor(nbrs, id)
  {
    i := 0;
    while i < |nbrs| && !Usable(nbrs[i], id)
      invariant 0 <= i <= |nbrs| && forall k :: 0 <= k < i ==> !Usable(nbrs[k], id)
    {
      i := i + 1;
    }
    if i == |nbrs| { i := -1; }
  }

  /** The installation got as far as vertex `k`, which did not fit. */
  ghost predicate StoppedAt(base: seq<RibEntry>, seqNo: u32, vs: seq<Vertex>, nbrs: seq<Neighbor>, k: nat,
                            rib: seq<RibEntry>)
    requires HopsInRange(vs)
  {
    && 0 < k < |vs| && Install(base, seqNo, vs, nbrs, k).Some? && Install(base, seqNo, vs, nbrs, k).value.0 == rib
    && Install(base, seqNo, vs, nbrs, k + 1).None?
  }

  /** The installation loop; false when the RIB runs full on the way. */
  method InstallLoop(vs: seq<Vertex>, nbrs: seq<Neighbor>, table: RouteTable) returns (ok: bool)
    requires table.Valid() && HopsInRange(vs) && vs != []
    modifies table, table.rib, table.selected, table.fib
    ensures table.Valid()
    ensures var r := Install(old(table.rib[..]), old(table.nextSequence), vs, nbrs, |vs|);
            ok == r.Some? && (ok ==> r.value == (table.rib[..], table.nextSequence))
    ensures !ok ==> exists k :: StoppedAt(old(table.rib[..]), old(table.nextSequence), vs, nbrs, k, table.rib[..])
  {
    ghost var base, s := table.rib[..], table.nextSequence;
    for k := 1 to |vs|
      invariant table.Valid() && Install(base, s, vs, nbrs, k) == Some((table.rib[..], table.nextSequence))
    {
      ok := InstallRound(vs, nbrs, table, k);
      if !ok {
        InstallFails(base, s, vs, nbrs, k + 1, |vs|);
        assert StoppedAt(base, s, vs, nbrs, k, table.rib[..]);
        return;
      }
    }
    ok := true;
  }

  /** One round of the installation loop. */
  method InstallRound(vs: seq<Vertex>, nbrs: seq<Neighbor>, table: RouteTable, k: nat) returns (ok: bool)
    requires table.Valid() && HopsInRange(vs) && 0 < k < |vs|
    modifies table, table.rib, table.selected, table.fib
    ensures table.Valid()
    ensures var r := InstallVertex(old(table.rib[..]), old(table.nextSequence), vs, nbrs, k);
            ok == r.Some? && (ok ==> r.value == (table.rib[..], table.nextSequence))
    ensures !ok ==> table.rib[..] == old(table.rib[..])
  {
    if vs[k].distance == INFINITY { return true; }
    var hop := vs[k].firstHop;
    if hop < 0 || hop >= |vs| { assert false; return false; }
    var j := FindNeighborLoop(nbrs, vs[hop].routerId);
    if j == -1 { return true; }
    MaskedIdempotent(vs[k].routerId, 32);
    ok := table.Add(vs[k].routerId, 32, nbrs[j].ipAddr, nbrs[j].iface, vs[k].distance, OSPF);
  }

  lemma {:induction false} InstallFails(base: seq<RibEntry>, seqNo: u32, vs: seq<Vertex>, nbrs: seq<Neighbor>, k: nat,
                                        n: nat)
    requires k <= n <= |vs| && HopsInRange(vs) && Install(base, seqNo, vs, nbrs, k).None?
    ensures Install(base, seqNo, vs, nbrs, n).None?
    decreases n
  {
    if k < n { InstallFails(base, seqNo, vs, nbrs, k, n - 1); }
  }

  /** The routing table after `ospf_run_spf` and its sequence counter; None on the error return. */
  function AfterSpf(db: seq<Option<Lsa>>, root: u32, nbrs: seq<Neighbor>, rib: seq<RibEntry>, seqNo: u32)
    : Option<(seq<RibEntry>, u32)>
    requires WellFormedDb(db) && |db| <= LSDB_SIZE
  {
    Install(FlushRib(rib, OSPF), seqNo, Tree(db, root), nbrs, |Tree(db, root)|)
  }

  lemma Flushed(rib: seq<RibEntry>, flushed: seq<RibEntry>)
    requires WellFormed(rib) && flushed == FlushRib(rib, OSPF)
    ensures WellFormed(flushed) && NoOspf(flushed)
    ensures forall key: RouteKey :: key.proto != OSPF ==> RouteAt(flushed, key) == RouteAt(rib, key)
  {
    FlushRemoves(rib, OSPF, HostKey(0));
    forall key: RouteKey
      ensures RouteAt(flushed, key) == if key.proto == OSPF then None else RouteAt(rib, key)
    {
      FlushRemoves(rib, OSPF, key);
    }
  }

  /** A run fails exactly when the routes the tree wants do not fit beside the other protocols' routes;
      otherwise the OSPF routes are exactly the tree, and every other protocol's routes are as before. */
  lemma RunInstallsTree(db: seq<Option<Lsa>>, root: u32, nbrs: seq<Neighbor>, rib: seq<RibEntry>, seqNo: u32)
    requires WellFormedDb(db) && |db| <= LSDB_SIZE && WellFormed(rib)
    ensures var r, tree := AfterSpf(db, root, nbrs, rib, seqNo), Tree(db, root);
            && (r.Some? <==> CountValid(FlushRib(rib, OSPF)) + Demand(tree, nbrs, |tree|) <= |rib|)
            && (r.Some? ==> WellFormed(r.value.0) && ExactUpTo(r.value.0, rib, tree, nbrs, |tree|))
  {
    var base, tree := FlushRib(rib, OSPF), Tree(db, root);
    Flushed(rib, base);
    InstallFits(base, seqNo, tree, nbrs, |tree|);
    if AfterSpf(db, root, nbrs, rib, seqNo).Some? {
      InstallExact(base, seqNo, tree, nbrs, |tree|, AfterSpf(db, root, nbrs, rib, seqNo).value.0);
    }
  }

  /** A failed run leaves the tree installed up to the first vertex that found the table full; every other protocol's
      routes are as before. */
  ghost predicate PartlyInstalled(rib: seq<RibEntry>, before: seq<RibEntry>, vs: seq<Vertex>, nbrs: seq<Neighbor>,
                                  k: nat)
    requires HopsInRange(vs)
  {
    0 < k < |vs| && ExactUpTo(rib, before, vs, nbrs, k) && Wanted(vs, nbrs, k).Some? && FreeSlot(rib) < 0
  }

  lemma StoppedIsPartial(before: seq<RibEntry>, seqNo: u32, vs: seq<Vertex>, nbrs: seq<Neighbor>, k: nat,
                         rib: seq<RibEntry>)
    requires WellFormed(before) && HopsInRange(vs) && DistinctIds(vs)
    requires StoppedAt(FlushRib(before, OSPF), seqNo, vs, nbrs, k, rib)
    ensures PartlyInstalled(rib, before, vs, nbrs, k)
  {
    var base := FlushRib(before, OSPF);
    Flushed(before, base);
    InstallExact(base, seqNo, vs, nbrs, k, rib);
    NextFits(base, seqNo, vs, nbrs, k, rib, Install(base, seqNo, vs, nbrs, k).value.1);
    CountFull(rib);
  }

  /** Running the whole computation again on the state it left succeeds and changes the answer for no destination. */
  lemma RerunChangesNoLookup(db: seq<Option<Lsa>>, root: u32, nbrs: seq<Neighbor>, rib: seq<RibEntry>, seqNo: u32,
                             dst: u32)
    requires WellFormedDb(db) && |db| <= LSDB_SIZE && WellFormed(rib)
    requires AfterSpf(db, root, nbrs, rib, seqNo).Some?
    ensures var (once, s) := AfterSpf(db, root, nbrs, rib, seqNo).value;
            var again := AfterSpf(db, root, nbrs, once, s);
            again.Some? && LookupSpec(again.value.0, dst) == LookupSpec(once, dst)
  {
    var (once, s) := AfterSpf(db, root, nbrs, rib, seqNo).value;
    Flushed(rib, FlushRib(rib, OSPF));
    ReinstallChangesNoLookup(FlushRib(rib, OSPF), seqNo, s, Tree(db, root), nbrs, dst);
  }

  /** No destination is routed differently by the two tables. */
  ghost predicate SameAnswers(a: seq<RibEntry>, b: seq<RibEntry>) {
    forall dst: u32 :: LookupSpec(a, dst) == LookupSpec(b, dst)
  }

  lemma RerunSameAnswers(db: seq<Option<Lsa>>, root: u32, nbrs: seq<Neighbor>, rib: seq<RibEntry>, seqNo: u32)
    requires WellFormedDb(db) && |db| <= LSDB_SIZE && WellFormed(rib)
    requires AfterSpf(db, root, nbrs, rib, seqNo).Some?
    ensures var (once, s) := AfterSpf(db, root, nbrs, rib, seqNo).value;
            var again := AfterSpf(db, root, nbrs, once, s);
            again.Some? && SameAnswers(again.value.0, once)
  {
    var (once, s) := AfterSpf(db, root, nbrs, rib, seqNo).value;
    RerunChangesNoLookup(db, root, nbrs, rib, seqNo, 0);
    var again := AfterSpf(db, root, nbrs, once, s).value.0;
    forall dst: u32 ensures LookupSpec(again, dst) == LookupSpec(once, dst) {
      RerunChangesNoLookup(db, root, nbrs, rib, seqNo, dst);
    }
  }

  /** After a dead-interval sweep, the next hop of every OSPF route is a neighbour that was not down before the sweep
      and has been heard within the interval: none leads to a neighbour that is down. */
  lemma NextHopsAreAlive(db: seq<Option<Lsa>>, root: u32, nbrs: seq<Neighbor>, now: nat, rib: seq<RibEntry>,
                         seqNo: u32, key: RouteKey) returns (j: nat)
    requires WellFormedDb(db) && |db| <= LSDB_SIZE && WellFormed(rib) && key.proto == OSPF
    requires var r := AfterSpf(db, root, OspfNeighbors.DeadSweep(nbrs, now), rib, seqNo);
             r.Some? && HopAt(r.value.0, key).Some?
    ensures j < |nbrs| && nbrs[j].valid && nbrs[j].state != Down && now < nbrs[j].lastHello + 40_000_000
    ensures var hop := HopAt(AfterSpf(db, root, OspfNeighbors.DeadSweep(nbrs, now), rib, seqNo).value.0, key).value;
            hop.nextHop == nbrs[j].ipAddr && hop.iface == nbrs[j].iface != NoIface
  {
    var swept, tree := OspfNeighbors.DeadSweep(nbrs, now), Tree(db, root);
    var after := AfterSpf(db, root, swept, rib, seqNo).value.0;
    RunInstallsTree(db, root, swept, rib, seqNo);
    assert !NotAmong(key, tree, |tree|);
    var i :| 0 < i < |tree| && key == HostKey(tree[i].routerId);
    assert HopAt(after, HostKey(tree[i].routerId)) == Wanted(tree, swept, i);
    j := FindNeighbor(swept, tree[tree[i].firstHop].routerId);
  }

  /** `ospf_run_spf`: computes the tree and installs it. */
  method RunSpf(db: seq<Option<Lsa>>, root: u32, nbrs: seq<Neighbor>, table: RouteTable) returns (ok: bool)
    requires table.Valid() && WellFormedDb(db) && |db| <= LSDB_SIZE
    modifies table, table.rib, table.selected, table.fib
    ensures table.Valid()
    ensures var r, tree := AfterSpf(db, root, nbrs, old(table.rib[..]), old(table.nextSequence)), Tree(db, root);
            && (ok <==> r.Some?) && (ok ==> r.value == (table.rib[..], table.nextSequence))
            && (ok <==> CountValid(FlushRib(old(table.rib[..]), OSPF)) + Demand(tree, nbrs, |tree|) <= table.rib.Length)
            && (ok ==> ExactUpTo(table.rib[..], old(table.rib[..]), tree, nbrs, |tree|))
            && (!ok ==> exists k :: PartlyInstalled(table.rib[..], old(table.rib[..]), tree, nbrs, k))
  {
    ghost var before, seqNo := table.rib[..], table.nextSequence;
    RunInstallsTree(db, root, nbrs, before, seqNo);
    var r := ComputeSpf(db, root);
    if r.None? { assert false; return false; }
    var n := table.FlushProto(OSPF);
    ok := InstallLoop(r.value, nbrs, table);
    if !ok {
      ghost var k :| StoppedAt(FlushRib(before, OSPF), seqNo, r.value, nbrs, k, table.rib[..]);
      StoppedIsPartial(before, seqNo, r.value, nbrs, k, table.rib[..]);
    }
  }

  /** Two runs on the same database and neighbours: the second succeeds too, and no lookup changes between them. */
  method RunTwice(db: seq<Option<Lsa>>, root: u32, nbrs: seq<Neighbor>, table: RouteTable)
    returns (ok: bool, ghost between: seq<RibEntry>)
    requires table.Valid() && WellFormedDb(db) && |db| <= LSDB_SIZE
    requires AfterSpf(db, root, nbrs, table.rib[..], table.nextSequence).Some?
    modifies table, table.rib, table.selected, table.fib
    ensures ok && table.Valid()
    ensures between == AfterSpf(db, root, nbrs, old(table.rib[..]), old(table.nextSequence)).value.0
    ensures SameAnswers(table.rib[..], between)
  {
    RerunSameAnswers(db, root, nbrs, table.rib[..], table.nextSequence);
    var first := RunSpf(db, root, nbrs, table);
    between := table.rib[..];
    ok := RunSpf(db, root, nbrs, table);
  }
}
