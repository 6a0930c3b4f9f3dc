/** Why ties do no harm: routers that all visit nearest first, smaller id on ties, never route in a ring,
    not even over links that cost nothing. */
module NoRings {
  import opened NetTypes
  import opened ShortestPaths
  import opened TieBreaks

  /** A shortest path can reach `v` from a router near the root. */
  ghost predicate NearWay(g: Graph, m: nat, t: Trip, v: u32) {
    exists c :: Near(g, m, t.root, c) && LeadsTo(g, t.dist, c, v)
  }

  /** Then it can from the first hop's neighbourhood as well, and the first hop has a small id itself. */
  lemma WayOn(g: Graph, m: nat, t: Trip, s: Trip, v: u32)
    requires Greedy(g, t) && Greedy(g, s) && t.dist == s.dist && NearWay(g, m, t, v)
    requires HandsOn(t, v, s.root) && v != s.root
    ensures s.root < m && NearWay(g, m, s, v)
  {
    var c :| Near(g, m, t.root, c) && LeadsTo(g, t.dist, c, v);
    var p := t.from[v];
    FromFirst(g, t, v, c);
    FromNear(g, m, t, p, c);
    HopNear(g, m, t, p);
    assert LeadsTo(g, s.dist, p, v);
  }

  /** The router a router was reached from is the first of those it could have been reached from. */
  lemma FromFirst(g: Graph, t: Trip, v: u32, c: u32)
    requires Greedy(g, t) && v in t.hop && LeadsTo(g, t.dist, c, v)
    ensures t.from[v] in t.pos && c in t.pos && t.pos[t.from[v]] <= t.pos[c] && LeadsTo(g, t.dist, t.from[v], v)
    ensures if t.from[v] == t.root then t.hop[v] == v else t.from[v] in t.hop && t.hop[v] == t.hop[t.from[v]]
  {
  }

  lemma FromNear(g: Graph, m: nat, t: Trip, p: u32, c: u32)
    requires Greedy(g, t) && p in t.pos && c in t.pos && t.pos[p] <= t.pos[c] && Near(g, m, t.root, c)
    ensures Near(g, m, t.root, p)
  {
    if !Near(g, m, t.root, p) { NearFirst(g, m, t, p, c); }
  }

  /** How many routers are near the root: all of them come first. */
  lemma {:induction false} FirstFar(g: Graph, m: nat, t: Trip, x: u32) returns (n: nat)
    requires Greedy(g, t) && x in t.pos && !Near(g, m, t.root, x)
    ensures forall v :: v in t.dist ==> (t.pos[v] < n <==> Near(g, m, t.root, v))
    ensures n <= t.pos[x]
    decreases t.pos[x]
  {
    if y :| y in t.pos && t.pos[y] < t.pos[x] && !Near(g, m, t.root, y) {
      n := FirstFar(g, m, t, y);
    } else {
      n := t.pos[x];
      forall v | v in t.dist && Near(g, m, t.root, v) ensures t.pos[v] < n {
        NearFirst(g, m, t, x, v);
      }
    }
  }

  ghost function Before(t: Trip, n: nat): set<u32>
    requires Shaped(t)
  {
    set v | v in t.dist && t.pos[v] < n
  }

  lemma {:induction false} BeforeCount(t: Trip, n: nat)
    requires Shaped(t) && n <= |t.order|
    ensures |Before(t, n)| == n
  {
    if n > 0 {
      BeforeCount(t, n - 1);
      var last := t.order[n - 1];
      assert Before(t, n) == Before(t, n - 1) + {last} by {
        forall v | v in Before(t, n) ensures v in Before(t, n - 1) || v == last {
          assert t.order[t.pos[v]] == v;
        }
      }
    }
  }

  /** Two roots with one neighbourhood, and no way to `v` from it: both reach `v` from the same router. */
  lemma SameFrom(g: Graph, m: nat, t: Trip, s: Trip, v: u32)
    requires Greedy(g, t) && Greedy(g, s) && t.dist == s.dist && v in t.dist && v != t.root && v != s.root
    requires Alike(g, m, t.root, s.root) && !NearWay(g, m, t, v)
    ensures v in t.from && v in s.from && t.from[v] == s.from[v] && t.from[v] != t.root && s.from[v] != s.root
  {
    var p, q := t.from[v], s.from[v];
    assert LeadsTo(g, t.dist, p, v) && LeadsTo(g, s.dist, q, v);
    FromFirst(g, t, v, q);
    FromFirst(g, s, v, p);
    NearSelf(g, m, t.root);
    NearSelf(g, m, s.root);
    SamePlace(g, m, t, s, p);
    SamePlace(g, m, t, s, q);
    PlaceUnique(t, p, q);
  }

  /** Two computations whose roots have the same neighbourhood agree on the place of everything outside it. */
  lemma SamePlace(g: Graph, m: nat, t: Trip, s: Trip, x: u32)
    requires Greedy(g, t) && Greedy(g, s) && t.dist == s.dist && x in t.dist && !Near(g, m, t.root, x)
    requires Alike(g, m, t.root, s.root)
    ensures s.pos[x] == t.pos[x]
  {
    var n := FirstFar(g, m, t, x);
    var k := FirstFar(g, m, s, x);
    assert Before(t, n) == Before(s, k);
    BeforeCount(t, n);
    BeforeCount(s, k);
    NearSelf(g, m, t.root);
    SameFromHere(g, t, s, n, x);
  }

  /** Two routers with the same neighbourhood. */
  ghost predicate Alike(g: Graph, m: nat, a: u32, b: u32) {
    forall v :: Near(g, m, a, v) <==> Near(g, m, b, v)
  }

  lemma SameNear(g: Graph, m: nat, a: u32, b: u32)
    requires Near(g, m, a, b) && Near(g, m, b, a)
    ensures Alike(g, m, a, b)
  {
    forall v ensures Near(g, m, a, v) <==> Near(g, m, b, v) {
      if Near(g, m, a, v) { NearTrans(g, m, b, a, v); }
      if Near(g, m, b, v) { NearTrans(g, m, a, b, v); }
    }
  }

  /** Every router's computation on one graph. */
  ghost predicate AllGreedy(g: Graph, net: map<u32, Trip>) {
    forall r {:trigger Fine(g, net, r)} :: r in net ==> Fine(g, net, r)
  }

  ghost predicate Fine(g: Graph, net: map<u32, Trip>, r: u32)
    requires r in net
  {
    net[r].root == r && Greedy(g, net[r])
  }

  /** Routers handing over to each other towards `v`, the last one being the first again. */
  ghost predicate Ring(net: map<u32, Trip>, ring: seq<u32>, v: u32) {
    && |ring| >= 2 && ring[0] == ring[|ring| - 1]
    && (forall i :: 0 <= i < |ring| ==> ring[i] in net)
    && (forall i, j {:trigger HandsOn(net[ring[i]], v, ring[j])} :: 0 <= i < j < |ring| && j == i + 1 ==>
          HandsOn(net[ring[i]], v, ring[j]))
  }

  ghost predicate HandsOn(t: Trip, v: u32, next: u32) {
    v in t.hop && t.hop[v] == next
  }

  lemma RingStep(g: Graph, net: map<u32, Trip>, ring: seq<u32>, v: u32, i: nat)
    requires AllGreedy(g, net) && Ring(net, ring, v) && i + 1 < |ring|
    ensures Greedy(g, net[ring[i]]) && Greedy(g, net[ring[i + 1]]) && HandsOn(net[ring[i]], v, ring[i + 1])
    ensures net[ring[i]].root == ring[i] && net[ring[i + 1]].root == ring[i + 1]
  {
    assert Fine(g, net, ring[i]) && Fine(g, net, ring[i + 1]);
    assert HandsOn(net[ring[i]], v, ring[i + 1]);
  }

  lemma RingHop(g: Graph, net: map<u32, Trip>, ring: seq<u32>, v: u32, i: nat)
    requires AllGreedy(g, net) && Ring(net, ring, v) && i + 1 < |ring|
    ensures var t, s := net[ring[i]], net[ring[i + 1]];
            && v in t.dist && v in s.dist && ring[i + 1] in t.dist && s.dist[v] + t.dist[ring[i + 1]] <= t.dist[v]
            && Edge(ring[i], ring[i + 1], t.dist[ring[i + 1]]) in g
  {
    RingStep(g, net, ring, v, i);
    HopNoFarther(g, net[ring[i]], net[ring[i + 1]], v);
  }

  lemma {:induction false} RingDown(g: Graph, net: map<u32, Trip>, ring: seq<u32>, v: u32, i: nat, j: nat)
    requires AllGreedy(g, net) && Ring(net, ring, v) && i < j < |ring|
    ensures v in net[ring[i]].dist && v in net[ring[j]].dist && net[ring[j]].dist[v] <= net[ring[i]].dist[v]
  {
    RingHop(g, net, ring, v, j - 1);
    if i < j - 1 { RingDown(g, net, ring, v, i, j - 1); }
  }

  /** All links of a ring are free. */
  lemma RingFree(g: Graph, net: map<u32, Trip>, ring: seq<u32>, v: u32, i: nat)
    requires AllGreedy(g, net) && Ring(net, ring, v) && i + 1 < |ring|
    ensures Edge(ring[i], ring[i + 1], 0) in g
  {
    RingHop(g, net, ring, v, i);
    if i > 0 { RingDown(g, net, ring, v, 0, i); }
    if i + 1 < |ring| - 1 { RingDown(g, net, ring, v, i + 1, |ring| - 1); }
  }

  /** A ring of free links whose largest id is `m`, where it starts and ends. */
  ghost predicate FreeRing(g: Graph, ring: seq<u32>, m: u32) {
    |ring| >= 2 && ring[0] == m && ring[|ring| - 1] == m && FreePath(g, m + 1, ring)
  }

  lemma RingNear(g: Graph, ring: seq<u32>, m: u32, i: nat)
    requires FreeRing(g, ring, m) && i < |ring|
    ensures Near(g, m + 1, m, ring[i]) && Near(g, m + 1, ring[i], m)
  {
    NearPrefix(g, m + 1, ring, i);
    FreeSlice(g, m + 1, ring, i, |ring|);
    var q := ring[i..|ring|];
    assert q[0] == ring[i] && q[|q| - 1] == m;
  }

  lemma RingDistances(g: Graph, net: map<u32, Trip>, ring: seq<u32>, m: u32, i: nat)
    requires AllGreedy(g, net) && FreeRing(g, ring, m) && i < |ring| && ring[i] in net && m in net
    ensures net[ring[i]].dist == net[m].dist
  {
    assert Fine(g, net, m) && Fine(g, net, ring[i]);
    RingNear(g, ring, m, i);
    NearCost(g, m + 1, net[m], ring[i]);
    NearCost(g, m + 1, net[ring[i]], m);
    SameDistances(g, net[m], net[ring[i]]);
  }

  /** A way to the destination from near the largest router of a ring would pass from router to router round the
      ring, each with a smaller id, and so never come back. */
  lemma {:induction false} WayRound(g: Graph, net: map<u32, Trip>, ring: seq<u32>, m: u32, v: u32, i: nat)
    requires AllGreedy(g, net) && Ring(net, ring, v) && FreeRing(g, ring, m) && NearWay(g, m, net[m], v)
    requires i < |ring|
    ensures NearWay(g, m, net[ring[i]], v) && (i > 0 ==> ring[i] < m)
  {
    if i > 0 {
      WayRound(g, net, ring, m, v, i - 1);
      WayNext(g, net, ring, m, v, i - 1);
    }
  }

  lemma WayNext(g: Graph, net: map<u32, Trip>, ring: seq<u32>, m: u32, v: u32, i: nat)
    requires AllGreedy(g, net) && Ring(net, ring, v) && FreeRing(g, ring, m)
    requires i + 1 < |ring| && NearWay(g, m, net[ring[i]], v)
    ensures NearWay(g, m, net[ring[i + 1]], v) && ring[i + 1] < m
  {
    var t, s := net[ring[i]], net[ring[i + 1]];
    RingPair(g, net, ring, m, v, i, t, s);
    RingStep(g, net, ring, v, i);
    WayOn(g, m, t, s, v);
  }

  lemma RingPair(g: Graph, net: map<u32, Trip>, ring: seq<u32>, m: u32, v: u32, i: nat, t: Trip, s: Trip)
    requires AllGreedy(g, net) && Ring(net, ring, v) && FreeRing(g, ring, m) && i + 1 < |ring|
    requires t == net[ring[i]] && s == net[ring[i + 1]]
    ensures t.dist == s.dist && HandsOn(t, v, s.root) && v != s.root && s.root == ring[i + 1]
  {
    RingDistances(g, net, ring, m, i);
    RingDistances(g, net, ring, m, i + 1);
    RingNotGoal(g, net, ring, v, i + 1);
    RootIs(g, net, ring[i + 1]);
    assert HandsOn(net[ring[i]], v, ring[i + 1]);
  }

  lemma RootIs(g: Graph, net: map<u32, Trip>, r: u32)
    requires AllGreedy(g, net) && r in net
    ensures net[r].root == r
  {
    assert Fine(g, net, r);
  }

  lemma RingNotGoal(g: Graph, net: map<u32, Trip>, ring: seq<u32>, v: u32, i: nat)
    requires AllGreedy(g, net) && Ring(net, ring, v) && i < |ring|
    ensures v != ring[i]
  {
    RingStep(g, net, ring, v, if i + 1 < |ring| then i else 0);
  }

  lemma WayBelow(g: Graph, t: Trip, v: u32)
    requires NearWay(g, t.root + 1, t, v)
    ensures NearWay(g, t.root, t, v)
  {
    var c :| Near(g, t.root + 1, t.root, c) && LeadsTo(g, t.dist, c, v);
    var p :| p != [] && p[0] == t.root && p[|p| - 1] == c && FreePath(g, t.root + 1, p);
    LastReturn(g, t.root, p);
  }

  /** Without such a way, the whole ring reaches the destination from one router and so routes in a ring to it. */
  lemma RingBack(g: Graph, net: map<u32, Trip>, ring: seq<u32>, m: u32, v: u32)
    requires AllGreedy(g, net) && Ring(net, ring, v) && FreeRing(g, ring, m) && !NearWay(g, m + 1, net[m], v)
    ensures v in net[m].from && Ring(net, ring, net[m].from[v])
    ensures net[m].from[v] in net[m].pos && v in net[m].pos && net[m].pos[net[m].from[v]] < net[m].pos[v]
  {
    RingStep(g, net, ring, v, 0);
    var u := net[m].from[v];
    assert ReachedFrom(g, net[m], v, u);
    forall i, j | 0 <= i < j < |ring| && j == i + 1 ensures HandsOn(net[ring[i]], u, ring[j]) {
      RingBackAt(g, net, ring, m, v, i);
    }
  }

  lemma RingBackAt(g: Graph, net: map<u32, Trip>, ring: seq<u32>, m: u32, v: u32, i: nat)
    requires AllGreedy(g, net) && Ring(net, ring, v) && FreeRing(g, ring, m) && !NearWay(g, m + 1, net[m], v)
    requires i + 1 < |ring| && v in net[m].from
    ensures HandsOn(net[ring[i]], net[m].from[v], ring[i + 1])
  {
    RingDistances(g, net, ring, m, i);
    RingNear(g, ring, m, i);
    SameNear(g, m + 1, m, ring[i]);
    RingNotGoal(g, net, ring, v, i);
    RingNotGoal(g, net, ring, v, 0);
    RingStep(g, net, ring, v, 0);
    RingStep(g, net, ring, v, i);
    BackAt(g, m + 1, net[m], net[ring[i]], v, ring[i + 1]);
  }

  lemma BackAt(g: Graph, m: nat, t: Trip, s: Trip, v: u32, next: u32)
    requires Greedy(g, t) && Greedy(g, s) && t.dist == s.dist && v != t.root && v != s.root
    requires Alike(g, m, t.root, s.root) && !NearWay(g, m, t, v) && HandsOn(s, v, next)
    ensures v in t.from && HandsOn(s, t.from[v], next)
  {
    SameFrom(g, m, t, s, v);
    HopInherited(g, s, v);
  }

  lemma {:induction false} NoFreeRing(g: Graph, net: map<u32, Trip>, ring: seq<u32>, m: u32, v: u32)
    requires AllGreedy(g, net) && Ring(net, ring, v) && FreeRing(g, ring, m)
    ensures false
    decreases if m in net && v in net[m].pos then net[m].pos[v] else 0
  {
    if NearWay(g, m + 1, net[m], v) {
      assert Fine(g, net, m);
      WayBelow(g, net[m], v);
      WayRound(g, net, ring, m, v, |ring| - 1);
    } else {
      RingBack(g, net, ring, m, v);
      NoFreeRing(g, net, ring, m, net[m].from[v]);
    }
  }

  lemma {:induction false} Largest(ids: seq<u32>) returns (k: nat)
    requires ids != []
    ensures k < |ids| && forall i :: 0 <= i < |ids| ==> ids[i] <= ids[k]
  {
    var n := |ids| - 1;
    if n == 0 { return 0; }
    k := Largest(ids[..n]);
    assert forall i :: 0 <= i < n ==> ids[i] == ids[..n][i] <= ids[k];
    if ids[n] > ids[k] { k := n; }
  }

  /** The same ring, told from its `k`th router. */
  lemma RingFrom(net: map<u32, Trip>, ring: seq<u32>, v: u32, k: nat, turned: seq<u32>)
    requires Ring(net, ring, v) && k < |ring| - 1 && turned == ring[k..|ring| - 1] + ring[..k + 1]
    ensures Ring(net, turned, v) && turned[0] == ring[k] && forall i :: 0 <= i < |turned| ==> turned[i] in ring
  {
    var n := |ring| - 1;
    forall i | 0 <= i < |turned| ensures turned[i] in ring && turned[i] in net {
      assert turned[i] == ring[if i < n - k then k + i else i - (n - k)];
    }
    forall i, j | 0 <= i < j < |turned| && j == i + 1 ensures HandsOn(net[turned[i]], v, turned[j]) {
      if j < n - k {
        assert HandsOn(net[ring[k + i]], v, ring[k + j]);
      } else if i < n - k {
        assert turned[i] == ring[n - 1] && turned[j] == ring[0];
        assert HandsOn(net[ring[n - 1]], v, ring[n]);
      } else {
        assert HandsOn(net[ring[i - (n - k)]], v, ring[j - (n - k)]);
      }
    }
  }

  lemma NoRing(g: Graph, net: map<u32, Trip>, ring: seq<u32>, v: u32)
    requires AllGreedy(g, net) && Ring(net, ring, v)
    ensures false
  {
    var k := Largest(ring[..|ring| - 1]);
    var turned := ring[k..|ring| - 1] + ring[..k + 1];
    RingFrom(net, ring, v, k, turned);
    SmallOnRing(ring, ring[..|ring| - 1], k, turned);
    var m: nat := ring[k];
    forall i, j | 0 <= i < j < |turned| && j == i + 1 ensures FreeStep(g, m + 1, turned[i], turned[j]) {
      RingFree(g, net, turned, v, i);
    }
    NoFreeRing(g, net, turned, ring[k], v);
  }

  lemma SmallOnRing(ring: seq<u32>, open: seq<u32>, k: nat, turned: seq<u32>)
    requires |ring| >= 2 && ring[0] == ring[|ring| - 1] && open == ring[..|ring| - 1]
    requires k < |open| && forall i :: 0 <= i < |open| ==> open[i] <= open[k]
    requires forall i :: 0 <= i < |turned| ==> turned[i] in ring
    ensures forall i :: 0 <= i < |turned| ==> turned[i] <= ring[k]
  {
    forall i | 0 <= i < |turned| ensures turned[i] <= ring[k] {
      var j :| 0 <= j < |ring| && ring[j] == turned[i];
      assert open[if j < |open| then j else 0] == turned[i];
    }
  }

  /** Each router of the trace hands over to the first hop it computed for `v`. */
  ghost predicate FollowsHops(net: map<u32, Trip>, v: u32, trace: seq<u32>) {
    && (forall i :: 0 <= i < |trace| ==> trace[i] in net)
    && (forall i, j {:trigger HandsOn(net[trace[i]], v, trace[j])} :: 0 <= i < j < |trace| && j == i + 1 ==>
          HandsOn(net[trace[i]], v, trace[j]))
  }

  /** Hop-by-hop routing on one graph never returns to a router. */
  lemma NeverTwice(g: Graph, net: map<u32, Trip>, v: u32, trace: seq<u32>, x: nat, y: nat)
    requires AllGreedy(g, net) && FollowsHops(net, v, trace) && x < y < |trace|
    ensures trace[x] != trace[y]
  {
    if trace[x] == trace[y] {
      var ring := trace[x..y + 1];
      forall i, j | 0 <= i < j < |ring| && j == i + 1 ensures HandsOn(net[ring[i]], v, ring[j]) {
        assert HandsOn(net[trace[x + i]], v, trace[x + j]);
      }
      NoRing(g, net, ring, v);
    }
  }
}
