/** Flooding and shortest paths together: once the databases agree, following first hops never loops. */
module Convergence {
  import opened NetTypes
  import opened OspfTypes
  import opened ShortestPaths
  import opened SpfLoops
  import opened VisitOrder
  import TieBreaks
  import NoRings
  import opened Lsdbs
  import Flooding
  import Table = RouteTables
  import SpfInstall

  ghost predicate SameGraph(a: Db, b: Db) {
    forall e :: IsEdge(a, e) <==> IsEdge(b, e)
  }

  /** Databases that hold the same advertisement under every key describe the same graph, whatever slots they use. */
  lemma SameHeldSameGraph(a: Db, b: Db)
    requires UniqueKeys(a) && UniqueKeys(b) && forall key :: Held(a, key) == Held(b, key)
    ensures SameGraph(a, b)
  {
    forall e ensures IsEdge(a, e) <==> IsEdge(b, e) {
      EdgeMoves(a, b, e);
      EdgeMoves(b, a, e);
    }
  }

  lemma EdgeMoves(a: Db, b: Db, e: Edge)
    requires UniqueKeys(a) && forall key :: Held(a, key) == Held(b, key)
    ensures IsEdge(a, e) ==> IsEdge(b, e)
  {
    if IsEdge(a, e) {
      var i, j :| 0 <= i < |a| && IsRouterLsa(a[i], e.from) && 0 <= j < |a[i].value.links| &&
                  LinkIs(a[i].value.links[j], e.to, e.weight);
      var key := KeyOf(a[i].value);
      SlotUnique(a, key, i);
      assert Held(b, key) == a[i];
      var k := SlotOf(b, key);
      assert IsRouterLsa(b[k], e.from) && LinkIs(b[k].value.links[j], e.to, e.weight);
    }
  }

  /** Every router has a database of a size the source allows, all describing one graph. */
  ghost predicate Converged(net: map<u32, Db>) {
    && (forall r :: r in net ==> WellFormedDb(net[r]) && |net[r]| <= LSDB_SIZE)
    && (forall q, r :: q in net && r in net ==> SameGraph(net[q], net[r]))
  }

  /** Each router of the trace hands over to the first hop it computed for the destination. */
  ghost predicate FollowsHops(net: map<u32, Db>, dst: u32, trace: seq<u32>)
    requires Converged(net)
  {
    && (forall k :: 0 <= k < |trace| ==> trace[k] in net)
    && (forall k, m :: 0 <= k < m < |trace| && m == k + 1 ==> HandsOver(Tree(net[trace[k]], trace[k]), dst, trace[m]))
  }

  ghost function TripFor(db: Db, root: u32): (t: TieBreaks.Trip)
    requires WellFormedDb(db) && |db| <= LSDB_SIZE
    ensures IsTripOf(t, db, root)
  {
    assert exists t :: IsTripOf(t, db, root) by { var t := TreeIsGreedy(db, root); }
    var t :| IsTripOf(t, db, root);
    t
  }

  lemma TripsGreedy(net: map<u32, Db>, trips: map<u32, TieBreaks.Trip>, g: Db)
    requires Converged(net) && trips.Keys == net.Keys && forall r :: r in net ==> IsTripOf(trips[r], net[r], r)
    requires forall r :: r in net ==> SameGraph(net[r], g)
    ensures NoRings.AllGreedy(GraphOf(g), trips)
  {
    forall r | r in trips ensures NoRings.Fine(GraphOf(g), trips, r) {
      assert IsTripOf(trips[r], net[r], r);
      assert GraphOf(net[r]) == GraphOf(g);
    }
  }

  /** Hop-by-hop routing on agreeing databases never returns to a router, whatever the links cost. */
  lemma NoRoutingLoop(net: map<u32, Db>, dst: u32, trace: seq<u32>, x: nat, y: nat)
    requires Converged(net) && FollowsHops(net, dst, trace) && x < y < |trace|
    ensures trace[x] != trace[y]
  {
    var g := net[trace[x]];
    var trips := map r | r in net :: TripFor(net[r], r);
    TripsGreedy(net, trips, g);
    forall i, j | 0 <= i < j < |trace| && j == i + 1 ensures NoRings.HandsOn(trips[trace[i]], dst, trace[j]) {
      assert HandsOver(Tree(net[trace[i]], trace[i]), dst, trace[j]);
    }
    NoRings.NeverTwice(GraphOf(g), trips, dst, trace, x, y);
  }

  // ---------- After flooding ----------

  /** A run of a connected network that has come to rest, in which key and sequence number determine content. */
  ghost predicate AtRest(t: Flooding.Topology, size: nat, run: seq<Flooding.Step>) {
    var lsas := Flooding.Originated(run);
    && Flooding.WellFormedTopology(t) && Flooding.Connected(t) && Flooding.IsRun(t, size, run)
    && |KeysOf(lsas)| <= size && Flooding.Exec(t, size, run).flight == multiset{}
    && forall a, b :: a in lsas && b in lsas && KeyOf(a) == KeyOf(b) && a.seqNum == b.seqNum ==> a == b
  }

  /** At rest all routers have sound databases that describe one graph. */
  lemma QuietNetworkSharesGraph(t: Flooding.Topology, size: nat, run: seq<Flooding.Step>, q: nat, r: nat)
    requires AtRest(t, size, run) && q < t.routers && r < t.routers
    ensures var dbs := Flooding.Exec(t, size, run).dbs;
            && |dbs| == t.routers && |dbs[q]| == size && WellFormedDb(dbs[q]) && SameGraph(dbs[q], dbs[r])
  {
    var s := Flooding.Exec(t, size, run);
    Flooding.ReachableInv(t, size, run);
    forall key ensures Held(s.dbs[q], key) == Held(s.dbs[r], key) {
      Flooding.AllRoutersAgree(t, size, run, q, r, key);
    }
    SameHeldSameGraph(s.dbs[q], s.dbs[r]);
  }

  ghost predicate Distinct(ids: seq<u32>) {
    forall i, j :: 0 <= i < j < |ids| ==> ids[i] != ids[j]
  }

  ghost predicate SoundDbs(dbs: seq<Db>) {
    forall r :: 0 <= r < |dbs| ==> WellFormedDb(dbs[r]) && |dbs[r]| <= LSDB_SIZE
  }

  /** A packet for `dst` goes from router to router along the first hops each of them computes. */
  ghost predicate RoutedAlong(dbs: seq<Db>, ids: seq<u32>, dst: u32, trace: seq<nat>)
    requires SoundDbs(dbs) && |ids| == |dbs|
  {
    && (forall k :: 0 <= k < |trace| ==> trace[k] < |dbs|)
    && (forall k, m :: 0 <= k < m < |trace| && m == k + 1 ==>
          HandsOver(Tree(dbs[trace[k]], ids[trace[k]]), dst, ids[trace[m]]))
  }

  ghost function NetOf(dbs: seq<Db>, ids: seq<u32>): (net: map<u32, Db>)
    requires |ids| == |dbs| && Distinct(ids)
    ensures forall r :: 0 <= r < |ids| ==> ids[r] in net && net[ids[r]] == dbs[r]
    ensures forall id :: id in net ==> exists r :: 0 <= r < |ids| && id == ids[r] && net[id] == dbs[r]
  {
    map id | id in ids :: dbs[IndexOf(ids, id)]
  }

  ghost function IndexOf(ids: seq<u32>, id: u32): (r: nat)
    requires id in ids
    ensures r < |ids| && ids[r] == id
  {
    var r :| 0 <= r < |ids| && ids[r] == id;
    r
  }

  lemma AgreeingNeverLoop(dbs: seq<Db>, ids: seq<u32>, dst: u32, trace: seq<nat>, x: nat, y: nat)
    requires SoundDbs(dbs) && |ids| == |dbs| && Distinct(ids) && RoutedAlong(dbs, ids, dst, trace) && x < y < |trace|
    requires forall q, r :: 0 <= q < |dbs| && 0 <= r < |dbs| ==> SameGraph(dbs[q], dbs[r])
    ensures trace[x] != trace[y]
  {
    var net := NetOf(dbs, ids);
    var named := seq(|trace|, k requires 0 <= k < |trace| => ids[trace[k]]);
    assert Converged(net);
    forall k, m | 0 <= k < m < |named| && m == k + 1 ensures HandsOver(Tree(net[named[k]], named[k]), dst, named[m]) {
      assert HandsOver(Tree(dbs[trace[k]], ids[trace[k]]), dst, ids[trace[m]]);
    }
    NoRoutingLoop(net, dst, named, x, y);
  }

  /** Once flooding has come to rest, the computed first hops lead nowhere in a loop. */
  lemma NoLoopAtRest(t: Flooding.Topology, size: nat, run: seq<Flooding.Step>, ids: seq<u32>, dst: u32,
                     trace: seq<nat>, x: nat, y: nat)
    requires AtRest(t, size, run) && size <= LSDB_SIZE && |ids| == t.routers && Distinct(ids) && x < y < |trace|
    ensures var dbs := Flooding.Exec(t, size, run).dbs;
            && |dbs| == t.routers && SoundDbs(dbs)
            && (RoutedAlong(dbs, ids, dst, trace) ==> trace[x] != trace[y])
  {
    var dbs := Flooding.Exec(t, size, run).dbs;
    Flooding.ReachableInv(t, size, run);
    forall q, r | 0 <= q < |dbs| && 0 <= r < |dbs|
      ensures WellFormedDb(dbs[q]) && |dbs[q]| <= LSDB_SIZE && SameGraph(dbs[q], dbs[r])
    {
      QuietNetworkSharesGraph(t, size, run, q, r);
    }
    assert SoundDbs(dbs) by {
      forall r | 0 <= r < |dbs| ensures WellFormedDb(dbs[r]) && |dbs[r]| <= LSDB_SIZE {
        QuietNetworkSharesGraph(t, size, run, r, r);
      }
    }
    if RoutedAlong(dbs, ids, dst, trace) { AgreeingNeverLoop(dbs, ids, dst, trace, x, y); }
  }

  // ---------- Installed routes ----------

  /** A router: its id, its neighbour table and its routing table. */
  datatype Node = Node(id: u32, nbrs: seq<Neighbor>, rib: seq<Table.RibEntry>)

  /** The routing table is what a successful run over the database left, from some well-formed table before. */
  ghost predicate Installed(db: Db, n: Node)
    requires WellFormedDb(db) && |db| <= LSDB_SIZE
  {
    exists before, seqNo: u32 :: Table.WellFormed(before) && InstalledFrom(db, n, before, seqNo)
  }

  ghost predicate InstalledFrom(db: Db, n: Node, before: seq<Table.RibEntry>, seqNo: u32)
    requires WellFormedDb(db) && |db| <= LSDB_SIZE
  {
    var r := SpfInstall.AfterSpf(db, n.id, n.nbrs, before, seqNo);
    r.Some? && r.value.0 == n.rib
  }

  /** Every usable neighbour's address belongs to the router it names. */
  ghost predicate Addressed(n: Node, owner: map<u32, u32>) {
    forall j :: 0 <= j < |n.nbrs| && SpfInstall.Usable(n.nbrs[j], n.nbrs[j].routerId) ==>
      n.nbrs[j].ipAddr in owner && owner[n.nbrs[j].ipAddr] == n.nbrs[j].routerId
  }

  /** The lookup for `dst` answers with an OSPF route whose next hop is an address of router `next`. */
  ghost predicate Forwards(n: Node, owner: map<u32, u32>, dst: u32, next: u32) {
    var route := Table.LookupSpec(n.rib, dst);
    && route.Some? && route.value.proto == Table.OSPF
    && route.value.nextHop in owner && owner[route.value.nextHop] == next
  }

  /** Such a lookup follows the first hop of the computed tree. */
  lemma ForwardsAsComputed(db: Db, n: Node, owner: map<u32, u32>, dst: u32, next: u32)
    requires WellFormedDb(db) && |db| <= LSDB_SIZE && Installed(db, n) && Addressed(n, owner)
    requires Forwards(n, owner, dst, next)
    ensures HandsOver(Tree(db, n.id), dst, next)
  {
    var before, seqNo: u32 :| Table.WellFormed(before) && InstalledFrom(db, n, before, seqNo);
    var tree := Tree(db, n.id);
    SpfInstall.RunInstallsTree(db, n.id, n.nbrs, before, seqNo);
    var i := SpfInstall.OspfAnswer(n.rib, before, tree, n.nbrs, dst);
    SlotOfId(tree, i);
    var j := SpfInstall.FindNeighbor(n.nbrs, tree[tree[i].firstHop].routerId);
    assert SpfInstall.Usable(n.nbrs[j], n.nbrs[j].routerId);
  }

  /** Every router has installed its tree, its database and its neighbours' addresses being what they should be. */
  ghost predicate AllInstalled(dbs: seq<Db>, nodes: seq<Node>, owner: map<u32, u32>)
    requires SoundDbs(dbs)
  {
    |nodes| == |dbs| && forall r :: 0 <= r < |nodes| ==> Installed(dbs[r], nodes[r]) && Addressed(nodes[r], owner)
  }

  /** A packet for `dst` goes from router to router along OSPF routes. */
  ghost predicate ForwardedAlong(nodes: seq<Node>, owner: map<u32, u32>, dst: u32, trace: seq<nat>) {
    && (forall k :: 0 <= k < |trace| ==> trace[k] < |nodes|)
    && (forall k, m :: 0 <= k < m < |trace| && m == k + 1 ==> Forwards(nodes[trace[k]], owner, dst, nodes[trace[m]].id))
  }

  ghost function Ids(nodes: seq<Node>): (ids: seq<u32>)
    ensures |ids| == |nodes| && forall r :: 0 <= r < |nodes| ==> ids[r] == nodes[r].id
  {
    seq(|nodes|, r requires 0 <= r < |nodes| => nodes[r].id)
  }

  lemma ForwardedIsRouted(dbs: seq<Db>, nodes: seq<Node>, owner: map<u32, u32>, dst: u32, trace: seq<nat>)
    requires SoundDbs(dbs) && AllInstalled(dbs, nodes, owner) && ForwardedAlong(nodes, owner, dst, trace)
    ensures RoutedAlong(dbs, Ids(nodes), dst, trace)
  {
    forall k, m | 0 <= k < m < |trace| && m == k + 1
      ensures HandsOver(Tree(dbs[trace[k]], nodes[trace[k]].id), dst, nodes[trace[m]].id)
    {
      ForwardsAsComputed(dbs[trace[k]], nodes[trace[k]], owner, dst, nodes[trace[m]].id);
    }
  }

  /** Once flooding has come to rest and every router has run its computation, no packet that is forwarded along OSPF
      routes comes to a router twice, whatever other protocols have in the tables. */
  lemma NoForwardingLoopAtRest(t: Flooding.Topology, size: nat, run: seq<Flooding.Step>, nodes: seq<Node>,
                               owner: map<u32, u32>, dst: u32, trace: seq<nat>, x: nat, y: nat)
    requires AtRest(t, size, run) && size <= LSDB_SIZE && |nodes| == t.routers && Distinct(Ids(nodes))
    requires ForwardedAlong(nodes, owner, dst, trace) && x < y < |trace|
    ensures var dbs := Flooding.Exec(t, size, run).dbs;
            && |dbs| == t.routers && SoundDbs(dbs)
            && (AllInstalled(dbs, nodes, owner) ==> trace[x] != trace[y])
  {
    var dbs := Flooding.Exec(t, size, run).dbs;
    NoLoopAtRest(t, size, run, Ids(nodes), dst, trace, x, y);
    if AllInstalled(dbs, nodes, owner) { ForwardedIsRouted(dbs, nodes, owner, dst, trace); }
  }
}
