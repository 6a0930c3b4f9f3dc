/** Visiting nearest first, smaller id on ties: what two computations on one graph have in common. */
module TieBreaks {
  import opened NetTypes
  import opened ShortestPaths

  type Graph = iset<Edge>

  /** One finished computation: the routers in the order visited, the place of each in it and its distance, and for
      each but the root the router it was reached from and its first hop. */
  datatype Trip = Trip(root: u32, order: seq<u32>, pos: map<u32, nat>, dist: map<u32, nat>,
                       from: map<u32, u32>, hop: map<u32, u32>)

  /** Nearer, or as near with the smaller id. */
  predicate Precedes(d: nat, id: u32, d': nat, id': u32) {
    d < d' || (d == d' && id < id')
  }

  ghost predicate Shaped(t: Trip) {
    && t.root in t.dist && t.pos.Keys == t.dist.Keys
    && t.hop.Keys == t.dist.Keys - {t.root} && t.from.Keys == t.dist.Keys - {t.root}
    && t.pos[t.root] == 0 && t.dist[t.root] == 0
    && (forall v :: v in t.pos ==> t.pos[v] < |t.order| && t.order[t.pos[v]] == v)
    && (forall k :: 0 <= k < |t.order| ==> t.order[k] in t.pos && t.pos[t.order[k]] == k)
  }

  /** Every edge out of a reached router reaches its far end, at no more than its cost. */
  ghost predicate Settled(g: Graph, t: Trip) {
    forall e :: e in g && e.from in t.dist ==> e.to in t.dist && t.dist[e.to] <= t.dist[e.from] + e.weight
  }

  /** `x` was visited after the edge was on offer and before its far end. */
  ghost predicate Passed(t: Trip, x: u32, e: Edge) {
    && x in t.pos && e.from in t.pos && e.to in t.pos
    && t.pos[e.from] < t.pos[x] < t.pos[e.to]
  }

  /** Whatever was visited before the far end of an edge on offer precedes it. */
  ghost predicate NearestFirst(g: Graph, t: Trip)
    requires Shaped(t)
  {
    forall x, e {:trigger Passed(t, x, e)} :: e in g && Passed(t, x, e) ==>
      Precedes(t.dist[x], x, t.dist[e.from] + e.weight, e.to)
  }

  /** A shortest path can reach `v` from `u`. */
  ghost predicate LeadsTo(g: Graph, dist: map<u32, nat>, u: u32, v: u32) {
    u in dist && v in dist && dist[u] <= dist[v] && Edge(u, v, dist[v] - dist[u]) in g
  }

  /** `u` is the first visited router from which a shortest path goes on to `v`, and `v` inherits its first hop. */
  ghost predicate ReachedFrom(g: Graph, t: Trip, v: u32, u: u32)
    requires Shaped(t) && v in t.hop
  {
    && LeadsTo(g, t.dist, u, v) && t.pos[u] < t.pos[v]
    && (forall x :: LeadsTo(g, t.dist, x, v) ==> t.pos[u] <= t.pos[x])
    && t.hop[v] == if u == t.root then v else t.hop[u]
  }

  ghost predicate AllReached(g: Graph, t: Trip)
    requires Shaped(t)
  {
    forall v {:trigger t.from[v]} :: v in t.from ==> ReachedFrom(g, t, v, t.from[v])
  }

  /** What the shortest-path computation does, told by its visiting order alone. */
  ghost predicate Greedy(g: Graph, t: Trip) {
    Shaped(t) && Settled(g, t) && NearestFirst(g, t) && AllReached(g, t)
  }

  // ---------- Comparing two computations on one graph ----------

  /** If another computation reaches this one's root for nothing, it reaches everything this one does, at no more. */
  lemma {:induction false} NoFarther(g: Graph, t: Trip, s: Trip, v: u32)
    requires Greedy(g, t) && Greedy(g, s) && s.root in t.dist && t.dist[s.root] == 0 && v in s.dist
    ensures v in t.dist && t.dist[v] <= s.dist[v]
    decreases s.pos[v]
  {
    if v != s.root {
      var u := s.from[v];
      NoFarther(g, t, s, u);
      assert Edge(u, v, s.dist[v] - s.dist[u]).from in t.dist;
    }
  }

  lemma SameDistances(g: Graph, t: Trip, s: Trip)
    requires Greedy(g, t) && Greedy(g, s)
    requires s.root in t.dist && t.dist[s.root] == 0 && t.root in s.dist && s.dist[t.root] == 0
    ensures t.dist == s.dist
  {
    forall v | v in t.dist || v in s.dist ensures v in t.dist && v in s.dist && t.dist[v] == s.dist[v] {
      if v in s.dist { NoFarther(g, t, s, v); }
      if v in t.dist { NoFarther(g, s, t, v); }
    }
  }

  /** The first hop is a neighbour, and by its own computation closer by what the link to it costs. */
  lemma {:induction false} HopNoFarther(g: Graph, t: Trip, s: Trip, v: u32)
    requires Greedy(g, t) && Greedy(g, s) && v in t.hop && t.hop[v] == s.root
    ensures s.root in t.dist && Edge(t.root, s.root, t.dist[s.root]) in g
    ensures v in s.dist && s.dist[v] + t.dist[s.root] <= t.dist[v]
    decreases t.pos[v]
  {
    var e := Offered(g, t, v);
    if e.from != t.root {
      HopInherited(g, t, v);
      HopNoFarther(g, t, s, e.from);
    }
  }

  lemma HopInherited(g: Graph, t: Trip, v: u32)
    requires Greedy(g, t) && v in t.hop
    ensures var u := t.from[v]; if u == t.root then t.hop[v] == v else u in t.hop && t.hop[v] == t.hop[u]
  {
  }

  lemma PlaceUnique(t: Trip, x: u32, y: u32)
    requires Shaped(t) && x in t.pos && y in t.pos && t.pos[x] == t.pos[y]
    ensures x == y
  {
    assert t.order[t.pos[x]] == x;
  }

  /** Both computations visited the same routers first, `n` of them. */
  ghost predicate SamePrefix(t: Trip, s: Trip, n: nat)
    requires Shaped(t) && Shaped(s) && t.dist == s.dist
  {
    forall v :: v in t.dist ==> (t.pos[v] < n <==> s.pos[v] < n)
  }

  /** The router visited next precedes whatever else the same visited routers have on offer. */
  lemma OneIsFirst(g: Graph, t: Trip, s: Trip, k: nat, x: u32, y: u32)
    requires Greedy(g, t) && Greedy(g, s) && t.dist == s.dist && SamePrefix(t, s, k) && 0 < k
    requires x in t.pos && y in s.pos && t.pos[x] == k == s.pos[y] && x != y
    ensures Precedes(t.dist[x], x, t.dist[y], y)
  {
    var e := Offered(g, s, y);
    if t.pos[y] == k { PlaceUnique(t, x, y); }
    PassedPrecedes(g, t, x, e);
  }

  lemma PassedPrecedes(g: Graph, t: Trip, x: u32, e: Edge)
    requires Shaped(t) && NearestFirst(g, t) && e in g && Passed(t, x, e)
    ensures Precedes(t.dist[x], x, t.dist[e.from] + e.weight, e.to)
  {
  }

  /** The edge over which a router was reached. */
  lemma Offered(g: Graph, s: Trip, y: u32) returns (e: Edge)
    requires Greedy(g, s) && y in s.pos && s.pos[y] > 0
    ensures e in g && e.to == y && e.from in s.dist && e.from in s.pos && s.pos[e.from] < s.pos[y]
    ensures s.dist[y] == s.dist[e.from] + e.weight && y in s.from && e.from == s.from[y]
  {
    var u := s.from[y];
    assert LeadsTo(g, s.dist, u, y);
    e := Edge(u, y, s.dist[y] - s.dist[u]);
  }

  /** Once two computations on the same distances have visited the same routers, they go on in the same order. */
  lemma {:induction false} SameFromHere(g: Graph, t: Trip, s: Trip, n: nat, v: u32)
    requires Greedy(g, t) && Greedy(g, s) && t.dist == s.dist && SamePrefix(t, s, n)
    requires 0 < n && v in t.dist && n <= t.pos[v]
    ensures s.pos[v] == t.pos[v]
    decreases t.pos[v]
  {
    var k := t.pos[v];
    forall u | u in t.dist && n <= t.pos[u] < k ensures s.pos[u] == t.pos[u] {
      SameFromHere(g, t, s, n, u);
    }
    StillSame(t, s, n, k);
    assert s.pos[v] >= k;
    var y := s.order[k];
    if y != v {
      OneIsFirst(g, t, s, k, v, y);
      OneIsFirst(g, s, t, k, y, v);
      assert false;
    }
  }

  lemma StillSame(t: Trip, s: Trip, n: nat, k: nat)
    requires Shaped(t) && Shaped(s) && t.dist == s.dist && SamePrefix(t, s, n) && n <= k <= |t.order|
    requires forall u :: u in t.dist && n <= t.pos[u] < k ==> s.pos[u] == t.pos[u]
    ensures SamePrefix(t, s, k)
  {
    forall u | u in t.dist && n <= s.pos[u] < k ensures t.pos[u] < k {
      var x := t.order[s.pos[u]];
      assert t.pos[x] == s.pos[u];
      assert s.order[s.pos[x]] == x;
    }
  }

  // ---------- Routers reached for nothing through small ids ----------

  /** A path over free links whose routers after the first all have an id below `m`. */
  ghost predicate FreePath(g: Graph, m: nat, p: seq<u32>) {
    forall i, j {:trigger FreeStep(g, m, p[i], p[j])} :: 0 <= i < j < |p| && j == i + 1 ==> FreeStep(g, m, p[i], p[j])
  }

  ghost predicate FreeStep(g: Graph, m: nat, a: u32, b: u32) {
    Edge(a, b, 0) in g && b < m
  }

  lemma FreeSlice(g: Graph, m: nat, p: seq<u32>, from: nat, to: nat)
    requires FreePath(g, m, p) && from <= to <= |p|
    ensures FreePath(g, m, p[from..to])
  {
    var q := p[from..to];
    forall i, j | 0 <= i < j < |q| && j == i + 1 ensures FreeStep(g, m, q[i], q[j]) {
      assert FreeStep(g, m, p[from + i], p[from + j]);
    }
  }

  ghost predicate Near(g: Graph, m: nat, a: u32, b: u32) {
    exists p :: p != [] && p[0] == a && p[|p| - 1] == b && FreePath(g, m, p)
  }

  lemma NearSelf(g: Graph, m: nat, a: u32)
    ensures Near(g, m, a, a)
  {
    assert FreePath(g, m, [a]);
  }

  lemma NearStep(g: Graph, m: nat, a: u32, b: u32, c: u32)
    requires Near(g, m, a, b) && FreeStep(g, m, b, c)
    ensures Near(g, m, a, c)
  {
    var p :| p != [] && p[0] == a && p[|p| - 1] == b && FreePath(g, m, p);
    var q := p + [c];
    forall i, j | 0 <= i < j < |q| && j == i + 1 ensures FreeStep(g, m, q[i], q[j]) {
      if j < |p| { assert FreeStep(g, m, p[i], p[j]); }
    }
    assert FreePath(g, m, q) && q[|q| - 1] == c;
  }

  lemma {:induction false} NearAlong(g: Graph, m: nat, a: u32, p: seq<u32>)
    requires p != [] && FreePath(g, m, p) && Near(g, m, a, p[0])
    ensures Near(g, m, a, p[|p| - 1])
  {
    if |p| > 1 {
      var n := |p| - 1;
      FreeSlice(g, m, p, 0, n);
      assert FreeStep(g, m, p[n - 1], p[n]);
      NearAlong(g, m, a, p[0..n]);
      NearStep(g, m, a, p[n - 1], p[n]);
    }
  }

  lemma NearTrans(g: Graph, m: nat, a: u32, b: u32, c: u32)
    requires Near(g, m, a, b) && Near(g, m, b, c)
    ensures Near(g, m, a, c)
  {
    var p :| p != [] && p[0] == b && p[|p| - 1] == c && FreePath(g, m, p);
    NearAlong(g, m, a, p);
  }

  /** A path that may come back to `m` itself can start at the last time it does. */
  lemma {:induction false} LastReturn(g: Graph, m: u32, p: seq<u32>)
    requires p != [] && p[0] == m && FreePath(g, m + 1, p)
    ensures Near(g, m, m, p[|p| - 1])
  {
    var n := |p| - 1;
    if p[n] == m {
      NearSelf(g, m, m);
    } else {
      FreeSlice(g, m + 1, p, 0, n);
      assert FreeStep(g, m + 1, p[n - 1], p[n]);
      LastReturn(g, m, p[0..n]);
      NearStep(g, m, m, p[n - 1], p[n]);
    }
  }

  /** What is reached over free links is reached for nothing. */
  lemma {:induction false} FreePathCost(g: Graph, m: nat, t: Trip, p: seq<u32>)
    requires Shaped(t) && Settled(g, t) && p != [] && FreePath(g, m, p) && p[0] in t.dist && t.dist[p[0]] == 0
    ensures p[|p| - 1] in t.dist && t.dist[p[|p| - 1]] == 0
  {
    if |p| > 1 {
      var n := |p| - 1;
      FreeSlice(g, m, p, 0, n);
      assert FreeStep(g, m, p[n - 1], p[n]);
      FreePathCost(g, m, t, p[0..n]);
      assert Edge(p[n - 1], p[n], 0).from in t.dist;
    }
  }

  lemma NearCost(g: Graph, m: nat, t: Trip, v: u32)
    requires Shaped(t) && Settled(g, t) && Near(g, m, t.root, v)
    ensures v in t.dist && t.dist[v] == 0
  {
    var p :| p != [] && p[0] == t.root && p[|p| - 1] == v && FreePath(g, m, p);
    FreePathCost(g, m, t, p);
  }

  /** Along a path from a visited router to one visited later than `k`, the first step out of the visited ones. */
  lemma {:induction false} StepOut(g: Graph, m: nat, t: Trip, k: nat, p: seq<u32>) returns (i: nat)
    requires Shaped(t) && Settled(g, t) && p != [] && FreePath(g, m, p) && p[0] == t.root && k > 0
    requires p[|p| - 1] in t.pos && t.pos[p[|p| - 1]] >= k
    ensures 0 < i < |p| && p[i - 1] in t.pos && t.pos[p[i - 1]] < k && p[i] in t.pos && t.pos[p[i]] >= k
  {
    var n := |p| - 1;
    assert n > 0;
    FreeSlice(g, m, p, 0, n);
    FreePathCost(g, m, t, p[0..n]);
    if t.pos[p[n - 1]] < k {
      i := n;
    } else {
      i := StepOut(g, m, t, k, p[0..n]);
    }
  }

  /** The routers near the root are visited before all others. */
  lemma {:induction false} NearFirst(g: Graph, m: nat, t: Trip, x: u32, v: u32)
    requires Greedy(g, t) && x in t.pos && !Near(g, m, t.root, x) && Near(g, m, t.root, v)
    ensures v in t.pos && t.pos[v] < t.pos[x]
    decreases t.pos[x]
  {
    NearCost(g, m, t, v);
    NearSelf(g, m, t.root);
    var u := t.from[x];
    if !Near(g, m, t.root, u) {
      NearFirst(g, m, t, u, v);
    } else if t.pos[v] >= t.pos[x] {
      LateIsNear(g, m, t, x, v);
      NearCost(g, m, t, u);
      NearStep(g, m, t.root, u, x);
      assert false;
    }
  }

  lemma LateIsNear(g: Graph, m: nat, t: Trip, x: u32, v: u32)
    requires Greedy(g, t) && x in t.pos && !Near(g, m, t.root, x) && Near(g, m, t.root, v)
    requires v in t.pos && t.pos[v] >= t.pos[x] > 0
    ensures t.dist[x] == 0 && x < m
  {
    var p :| p != [] && p[0] == t.root && p[|p| - 1] == v && FreePath(g, m, p);
    var i := StepOut(g, m, t, t.pos[x], p);
    var e := Edge(p[i - 1], p[i], 0);
    assert FreeStep(g, m, p[i - 1], p[i]);
    NearPrefix(g, m, p, i);
    NearPrefix(g, m, p, i - 1);
    NearCost(g, m, t, p[i - 1]);
    assert t.pos[p[i]] != t.pos[x] by { assert t.order[t.pos[x]] == x; }
    assert Passed(t, x, e);
  }

  lemma NearPrefix(g: Graph, m: nat, p: seq<u32>, i: nat)
    requires p != [] && FreePath(g, m, p) && i < |p|
    ensures Near(g, m, p[0], p[i])
  {
    FreeSlice(g, m, p, 0, i + 1);
    assert p[0..i + 1][|p[0..i + 1]| - 1] == p[i];
  }

  /** The first hop towards a near router is near too, and nearer the goal by the same kind of path. */
  lemma {:induction false} HopNear(g: Graph, m: nat, t: Trip, v: u32)
    requires Greedy(g, t) && v in t.hop && Near(g, m, t.root, v)
    ensures t.hop[v] < m && Near(g, m, t.hop[v], v)
    decreases t.pos[v]
  {
    NearCost(g, m, t, v);
    NearLast(g, m, t.root, v);
    var u := t.from[v];
    if u == t.root {
      NearSelf(g, m, v);
    } else {
      if !Near(g, m, t.root, u) { NearFirst(g, m, t, u, v); }
      NearCost(g, m, t, u);
      HopNear(g, m, t, u);
      NearStep(g, m, t.hop[v], u, v);
    }
  }

  lemma NearLast(g: Graph, m: nat, a: u32, b: u32)
    requires Near(g, m, a, b) && a != b
    ensures b < m
  {
    var p :| p != [] && p[0] == a && p[|p| - 1] == b && FreePath(g, m, p);
    assert FreeStep(g, m, p[|p| - 2], p[|p| - 1]);
  }
}
