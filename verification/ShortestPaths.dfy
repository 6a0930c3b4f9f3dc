/** The shortest-path computation of OSPF over the link-state database. */
module ShortestPaths {
  import opened NetTypes
  import opened Slots
  import opened OspfTypes

  const INFINITY: u32 := 0xFFFF_FFFF

  /** `OSPF_SPF_MAX_NODES` for a database of `slots` slots: the root, and per slot a router and its four links. */
  function MaxNodes(slots: nat): nat {
    1 + 5 * slots
  }

  datatype Vertex = Vertex(routerId: u32, distance: u32, predecessor: int, firstHop: int, visited: bool)

  // ---------- The graph described by the database ----------

  datatype Edge = Edge(from: u32, to: u32, weight: nat)

  predicate IsRouterLsa(slot: Option<Lsa>, adv: u32) {
    slot.Some? && slot.value.lsaType == LSA_TYPE_ROUTER && slot.value.advRouter == adv
  }

  /** The links a router advertises, in the order the relaxation loops meet them. */
  function OutLinks(db: seq<Option<Lsa>>, adv: u32): seq<Link> {
    if db == [] then []
    else OutLinks(db[..|db| - 1], adv) +
         if IsRouterLsa(db[|db| - 1], adv) then db[|db| - 1].value.links else []
  }

  /** Some used slot holds a router LSA of `e.from` with a point-to-point link to `e.to` of that metric. */
  ghost predicate IsEdge(db: seq<Option<Lsa>>, e: Edge) {
    exists i, j :: 0 <= i < |db| && IsRouterLsa(db[i], e.from) && 0 <= j < |db[i].value.links| &&
                   LinkIs(db[i].value.links[j], e.to, e.weight)
  }

  predicate LinkIs(link: Link, to: u32, weight: nat) {
    link.kind == LINK_P2P && link.linkId == to && link.metric == weight
  }

  /** The edges in the fields of the source: a used slot, type 1, that router, and in it a link of type 1. */
  lemma EdgeIff(db: seq<Option<Lsa>>, from: u32, to: u32, weight: nat)
    ensures IsEdge(db, Edge(from, to, weight)) <==>
            exists i, j :: 0 <= i < |db| && db[i].Some? && db[i].value.lsaType == 1 && db[i].value.advRouter == from &&
                           0 <= j < |db[i].value.links| && db[i].value.links[j].kind == 1 &&
                           db[i].value.links[j].linkId == to && db[i].value.links[j].metric == weight
  {
    if i, j :| 0 <= i < |db| && db[i].Some? && db[i].value.lsaType == 1 && db[i].value.advRouter == from &&
               0 <= j < |db[i].value.links| && db[i].value.links[j].kind == 1 &&
               db[i].value.links[j].linkId == to && db[i].value.links[j].metric == weight {
      assert IsRouterLsa(db[i], from) && LinkIs(db[i].value.links[j], to, weight);
    }
  }

  /** `p` is a path from `root` to `v` in the graph. */
  ghost predicate IsWalk(db: seq<Option<Lsa>>, root: u32, p: seq<Edge>, v: u32) {
    if p == [] then v == root
    else
      var e := p[|p| - 1];
      e.to == v && IsEdge(db, e) && IsWalk(db, root, p[..|p| - 1], e.from)
  }

  ghost function Cost(p: seq<Edge>): nat {
    if p == [] then 0 else Cost(p[..|p| - 1]) + p[|p| - 1].weight
  }

  /** The advertised links are the edges of the graph. */
  lemma OutLinksAreEdges(db: seq<Option<Lsa>>, from: u32, to: u32, weight: nat)
    ensures IsEdge(db, Edge(from, to, weight)) <==>
            exists k :: 0 <= k < |OutLinks(db, from)| && LinkIs(OutLinks(db, from)[k], to, weight)
  {
    if i, j :| 0 <= i < |db| && IsRouterLsa(db[i], from) && 0 <= j < |db[i].value.links| &&
               LinkIs(db[i].value.links[j], to, weight) {
      var k := EdgeIsLink(db, from, to, weight, i, j);
    }
    if k :| 0 <= k < |OutLinks(db, from)| && LinkIs(OutLinks(db, from)[k], to, weight) {
      LinkIsEdge(db, from, to, weight, k);
    }
  }

  lemma {:induction false} EdgeIsLink(db: seq<Option<Lsa>>, from: u32, to: u32, weight: nat, i: nat, j: nat)
    returns (k: nat)
    requires i < |db| && IsRouterLsa(db[i], from) && j < |db[i].value.links| && LinkIs(db[i].value.links[j], to, weight)
    ensures k < |OutLinks(db, from)| && LinkIs(OutLinks(db, from)[k], to, weight)
  {
    var n := |db| - 1;
    if i < n {
      k := EdgeIsLink(db[..n], from, to, weight, i, j);
    } else {
      k := |OutLinks(db[..n], from)| + j;
    }
  }

  lemma {:induction false} LinkIsEdge(db: seq<Option<Lsa>>, from: u32, to: u32, weight: nat, k: nat)
    requires k < |OutLinks(db, from)| && LinkIs(OutLinks(db, from)[k], to, weight)
    ensures IsEdge(db, Edge(from, to, weight))
  {
    var n := |db| - 1;
    var front := OutLinks(db[..n], from);
    if k < |front| {
      LinkIsEdge(db[..n], from, to, weight, k);
      var i, j :| 0 <= i < n && IsRouterLsa(db[..n][i], from) && 0 <= j < |db[..n][i].value.links| &&
                  LinkIs(db[..n][i].value.links[j], to, weight);
      assert IsRouterLsa(db[i], from);
    } else {
      assert LinkIs(db[n].value.links[k - |front|], to, weight);
    }
  }

  // ---------- What the computation promises ----------

  /** Some path to `v` costs exactly `d` and, unless it is empty, goes first to `hop`. */
  ghost predicate Reached(db: seq<Option<Lsa>>, root: u32, v: u32, d: nat, hop: u32) {
    exists p: seq<Edge> :: IsWalk(db, root, p, v) && Cost(p) == d && p != [] && p[0].to == hop && p[0].from == root
  }

  /** The recorded first hop of vertex `i` is the first router on some path of the recorded distance. */
  ghost predicate HopRight(db: seq<Option<Lsa>>, root: u32, vs: seq<Vertex>, i: nat)
    requires i < |vs|
  {
    0 <= vs[i].firstHop < |vs| && Reached(db, root, vs[i].routerId, vs[i].distance, vs[vs[i].firstHop].routerId)
  }

  /** Distances are minimal, infinity means unreachable, and first hops lie on shortest paths. */
  ghost predicate IsShortestPathTree(db: seq<Option<Lsa>>, root: u32, vs: seq<Vertex>) {
    && vs != [] && vs[0].routerId == root && vs[0].distance == 0
    && DistinctIds(vs)
    && Minimal(db, root, vs)
    && (forall i :: 0 < i < |vs| && vs[i].distance < INFINITY ==> HopRight(db, root, vs, i))
  }

  /** A vertex with a path to it is finite and no farther than any path. */
  ghost predicate Minimal(db: seq<Option<Lsa>>, root: u32, vs: seq<Vertex>) {
    forall i, p :: 0 <= i < |vs| && IsWalk(db, root, p, vs[i].routerId) ==> NoFartherThan(vs, i, p)
  }

  ghost predicate NoFartherThan(vs: seq<Vertex>, i: nat, p: seq<Edge>)
    requires i < |vs|
  {
    vs[i].distance < INFINITY && vs[i].distance <= Cost(p)
  }

  ghost predicate DistinctIds(vs: seq<Vertex>) {
    forall i, j :: 0 <= i < j < |vs| ==> vs[i].routerId != vs[j].routerId
  }

  /** Every router the database mentions has a vertex. */
  ghost predicate Covers(db: seq<Option<Lsa>>, vs: seq<Vertex>) {
    forall e :: IsEdge(db, e) ==> HasId(vs, e.from) && HasId(vs, e.to)
  }

  ghost predicate HasId(vs: seq<Vertex>, id: u32) {
    exists i :: 0 <= i < |vs| && vs[i].routerId == id
  }

  // ---------- Relaxation ----------

  /** `ospf_find_spf_vertex`. */
  function FindVertex(vs: seq<Vertex>, id: u32): (i: int)
    ensures -1 <= i < |vs|
    ensures i >= 0 ==> vs[i].routerId == id
    ensures forall k :: 0 <= k < (if i < 0 then |vs| else i) ==> vs[k].routerId != id
  {
    First(vs, (v: Vertex) => v.routerId == id)
  }

  /** One link of the selected vertex; None is the error return of the source. */
  function Relax(vs: seq<Vertex>, sel: nat, link: Link): Option<seq<Vertex>>
    requires sel < |vs|
  {
    if link.kind != LINK_P2P then Some(vs)
    else
      var d := FindVertex(vs, link.linkId);
      if d < 0 then None
      else if vs[d].visited then Some(vs)
      else if vs[sel].distance >= INFINITY - link.metric then Some(vs)
      else
        var distance := vs[sel].distance + link.metric;
        if distance >= vs[d].distance then Some(vs)
        else if sel != 0 && !(0 <= vs[sel].firstHop < |vs|) then None
        else
          Some(vs[d := vs[d].(distance := distance, predecessor := sel,
                              firstHop := if sel == 0 then d else vs[sel].firstHop)])
  }

  function RelaxAll(vs: seq<Vertex>, sel: nat, links: seq<Link>): (r: Option<seq<Vertex>>)
    requires sel < |vs|
    ensures r.Some? ==> |r.value| == |vs|
  {
    if links == [] then Some(vs)
    else
      var r := RelaxAll(vs, sel, links[..|links| - 1]);
      if r.None? then None else Relax(r.value, sel, links[|links| - 1])
  }

  predicate IsVisited(v: Vertex) {
    v.visited
  }

  ghost function CountVisited(vs: seq<Vertex>): (c: nat)
    ensures c <= |vs|
    ensures (exists i :: 0 <= i < |vs| && !vs[i].visited) ==> c < |vs|
  {
    CountAll(vs, IsVisited);
    Count(vs, IsVisited)
  }

  // ---------- The loop invariant ----------

  /** Vertex `u` cannot improve any vertex through the links in `links`. */
  ghost predicate Tight(vs: seq<Vertex>, u: nat, links: seq<Link>)
    requires u < |vs|
  {
    forall k, v :: 0 <= k < |links| && 0 <= v < |vs| && LinkIs(links[k], vs[v].routerId, links[k].metric) ==>
      vs[v].distance <= vs[u].distance + links[k].metric
  }

  ghost predicate Named(root: u32, vs: seq<Vertex>) {
    vs != [] && vs[0].routerId == root && vs[0].distance == 0 && DistinctIds(vs)
  }

  ghost predicate Hops(db: seq<Option<Lsa>>, root: u32, vs: seq<Vertex>) {
    forall i :: 0 < i < |vs| && vs[i].distance < INFINITY ==> HopRight(db, root, vs, i)
  }

  /** Visited vertices are reachable and no farther than unvisited ones; the root is visited first. */
  ghost predicate Ordered(vs: seq<Vertex>) {
    && (forall i :: 0 <= i < |vs| && vs[i].visited ==> vs[i].distance < INFINITY && vs[0].visited)
    && (forall i, j :: 0 <= i < |vs| && 0 <= j < |vs| && vs[i].visited && !vs[j].visited ==>
          vs[i].distance <= vs[j].distance)
  }

  /** Visited vertices other than the selected one are tight on all their links. */
  ghost predicate TightExcept(db: seq<Option<Lsa>>, vs: seq<Vertex>, selected: int) {
    forall i :: 0 <= i < |vs| && vs[i].visited && i != selected ==> Tight(vs, i, OutLinks(db, vs[i].routerId))
  }

  /** After `c` rounds a finite distance adds up at most `c` metrics, one less on a visited vertex. */
  ghost predicate Bounded(vs: seq<Vertex>, c: nat) {
    forall i :: 0 <= i < |vs| && vs[i].distance < INFINITY ==>
      vs[i].distance + (if vs[i].visited then 0xFFFF else 0) <= c * 0xFFFF
  }

  /** What holds between rounds, `c` being the number of visited vertices. */
  ghost predicate Inv(db: seq<Option<Lsa>>, root: u32, vs: seq<Vertex>, c: nat) {
    && Named(root, vs) && Covers(db, vs) && Hops(db, root, vs) && Ordered(vs)
    && TightExcept(db, vs, -1) && Bounded(vs, c)
  }

  /** What holds while the links of `sel` are relaxed, `done` being those already seen. */
  ghost predicate InRound(db: seq<Option<Lsa>>, root: u32, vs: seq<Vertex>, c: nat, sel: nat, done: seq<Link>) {
    && sel < |vs| && Named(root, vs) && Covers(db, vs) && Hops(db, root, vs) && Ordered(vs)
    && TightExcept(db, vs, sel) && Bounded(vs, c) && Farthest(vs, c, sel) && Tight(vs, sel, done)
  }

  /** The selected vertex is farthest among the visited ones, and was within bound before it was visited. */
  ghost predicate Farthest(vs: seq<Vertex>, c: nat, sel: nat)
    requires sel < |vs|
  {
    && vs[sel].visited && vs[sel].distance + 0xFFFF <= c * 0xFFFF
    && (forall i :: 0 <= i < |vs| && vs[i].visited ==> vs[i].distance <= vs[sel].distance)
  }

  lemma ExtendReached(db: seq<Option<Lsa>>, root: u32, u: u32, d: nat, hop: u32, e: Edge)
    requires Reached(db, root, u, d, hop) && IsEdge(db, e) && e.from == u
    ensures Reached(db, root, e.to, d + e.weight, hop)
  {
    var p: seq<Edge> :| IsWalk(db, root, p, u) && Cost(p) == d && p != [] && p[0].to == hop && p[0].from == root;
    assert (p + [e])[..|p|] == p;
    assert IsWalk(db, root, p + [e], e.to) && Cost(p + [e]) == d + e.weight && (p + [e])[0] == p[0];
  }

  lemma StartReached(db: seq<Option<Lsa>>, root: u32, e: Edge)
    requires IsEdge(db, e) && e.from == root
    ensures Reached(db, root, e.to, e.weight, e.to)
  {
    assert [e][..0] == [];
    assert Cost([e]) == Cost([]) + e.weight == e.weight;
    assert IsWalk(db, root, [e], e.to);
  }

  /** The vertices with vertex `d` lowered through the selected vertex. */
  function Lowered(vs: seq<Vertex>, sel: nat, link: Link, d: nat): seq<Vertex>
    requires sel < |vs| && d < |vs| && vs[sel].distance + link.metric < INFINITY
  {
    vs[d := vs[d].(distance := vs[sel].distance + link.metric, predecessor := sel,
                   firstHop := if sel == 0 then d else vs[sel].firstHop)]
  }

  /** `d` is an unvisited vertex that `link` of the selected vertex improves. */
  ghost predicate Improves(vs: seq<Vertex>, sel: nat, link: Link, d: nat) {
    && sel < |vs| && d < |vs| && vs[d].routerId == link.linkId && !vs[d].visited
    && vs[sel].distance + link.metric < vs[d].distance
  }

  lemma LoweredHops(db: seq<Option<Lsa>>, root: u32, vs: seq<Vertex>, sel: nat, link: Link, d: nat)
    requires Named(root, vs) && Hops(db, root, vs) && Improves(vs, sel, link, d)
    requires IsEdge(db, Edge(vs[sel].routerId, link.linkId, link.metric))
    ensures Hops(db, root, Lowered(vs, sel, link, d))
  {
    var vs' := Lowered(vs, sel, link, d);
    var e := Edge(vs[sel].routerId, link.linkId, link.metric);
    forall i | 0 < i < |vs'| && vs'[i].distance < INFINITY ensures HopRight(db, root, vs', i) {
      if i != d {
        assert HopRight(db, root, vs, i);
      } else if sel == 0 {
        StartReached(db, root, e);
      } else {
        assert HopRight(db, root, vs, sel);
        ExtendReached(db, root, vs[sel].routerId, vs[sel].distance, vs[vs[sel].firstHop].routerId, e);
      }
    }
  }

  lemma LoweredTight(db: seq<Option<Lsa>>, vs: seq<Vertex>, sel: nat, done: seq<Link>, link: Link, d: nat)
    requires Improves(vs, sel, link, d) && DistinctIds(vs) && vs[sel].visited
    requires TightExcept(db, vs, sel) && Tight(vs, sel, done)
    ensures TightExcept(db, Lowered(vs, sel, link, d), sel)
    ensures Tight(Lowered(vs, sel, link, d), sel, done + [link])
  {
    var vs' := Lowered(vs, sel, link, d);
    forall i | 0 <= i < |vs'| && vs'[i].visited && i != sel ensures Tight(vs', i, OutLinks(db, vs'[i].routerId)) {
      assert Tight(vs, i, OutLinks(db, vs[i].routerId));
    }
  }

  lemma SameIdsCover(db: seq<Option<Lsa>>, a: seq<Vertex>, b: seq<Vertex>)
    requires Covers(db, a) && SameIds(a, b)
    ensures Covers(db, b)
  {
    forall id | HasId(a, id) ensures HasId(b, id) {
      var i :| 0 <= i < |a| && a[i].routerId == id;
      assert b[i].routerId == id;
    }
  }

  /** The same routers in the same places. */
  ghost predicate SameIds(a: seq<Vertex>, b: seq<Vertex>) {
    |a| == |b| && forall i :: 0 <= i < |a| ==> a[i].routerId == b[i].routerId
  }

  lemma LoweredShape(root: u32, vs: seq<Vertex>, c: nat, sel: nat, link: Link, d: nat)
    requires Improves(vs, sel, link, d) && Named(root, vs) && Ordered(vs) && Bounded(vs, c) && Farthest(vs, c, sel)
    ensures var vs' := Lowered(vs, sel, link, d);
            SameIds(vs, vs') && Named(root, vs') && Ordered(vs') && Bounded(vs', c) && Farthest(vs', c, sel)
  {
  }

  /** Lowering one unvisited vertex through the selected vertex keeps the round going. */
  lemma LoweredKeeps(db: seq<Option<Lsa>>, root: u32, vs: seq<Vertex>, c: nat, sel: nat, done: seq<Link>, link: Link,
                     d: nat)
    requires InRound(db, root, vs, c, sel, done) && Improves(vs, sel, link, d)
    requires IsEdge(db, Edge(vs[sel].routerId, link.linkId, link.metric))
    ensures InRound(db, root, Lowered(vs, sel, link, d), c, sel, done + [link])
  {
    var vs' := Lowered(vs, sel, link, d);
    LoweredHops(db, root, vs, sel, link, d);
    LoweredTight(db, vs, sel, done, link, d);
    LoweredShape(root, vs, c, sel, link, d);
    SameIdsCover(db, vs, vs');
  }

  /** A link that improves nothing is tight. */
  lemma UnchangedTight(vs: seq<Vertex>, c: nat, sel: nat, done: seq<Link>, link: Link, d: int)
    requires sel < |vs| && Farthest(vs, c, sel) && Tight(vs, sel, done) && DistinctIds(vs)
    requires link.kind == LINK_P2P ==> 0 <= d < |vs| && vs[d].routerId == link.linkId && !Improves(vs, sel, link, d)
    ensures Tight(vs, sel, done + [link])
  {
    var links := done + [link];
    forall k, v | 0 <= k < |links| && 0 <= v < |vs| && LinkIs(links[k], vs[v].routerId, links[k].metric)
      ensures vs[v].distance <= vs[sel].distance + links[k].metric
    {
      if k < |done| {
        assert LinkIs(done[k], vs[v].routerId, done[k].metric);
      } else {
        assert v == d;
      }
    }
  }

  /** Neither the error returns nor the saturation guard fire: a link lowers its vertex or changes nothing. */
  lemma RelaxCases(db: seq<Option<Lsa>>, root: u32, vs: seq<Vertex>, c: nat, sel: nat, link: Link)
    requires sel < |vs| && Named(root, vs) && Hops(db, root, vs) && Farthest(vs, c, sel) && c <= 0xFFFF
    requires link.kind == LINK_P2P ==> HasId(vs, link.linkId)
    ensures vs[sel].distance < INFINITY - link.metric
    ensures var d := FindVertex(vs, link.linkId);
            Relax(vs, sel, link) ==
            if link.kind == LINK_P2P && Improves(vs, sel, link, d) then Some(Lowered(vs, sel, link, d)) else Some(vs)
  {
    if link.kind == LINK_P2P {
      var d := FindVertex(vs, link.linkId);
      assert d >= 0;
      assert sel != 0 ==> HopRight(db, root, vs, sel);
    }
  }

  /** One link: the round moves past it. */
  lemma RelaxKeeps(db: seq<Option<Lsa>>, root: u32, vs: seq<Vertex>, c: nat, sel: nat, done: seq<Link>, link: Link)
    requires InRound(db, root, vs, c, sel, done) && c <= 0xFFFF
    requires link.kind == LINK_P2P ==> IsEdge(db, Edge(vs[sel].routerId, link.linkId, link.metric))
    ensures Relax(vs, sel, link).Some?
    ensures InRound(db, root, Relax(vs, sel, link).value, c, sel, done + [link])
    ensures SameFrame(vs, Relax(vs, sel, link).value)
  {
    assert link.kind == LINK_P2P ==> HasId(vs, link.linkId);
    RelaxCases(db, root, vs, c, sel, link);
    var d := FindVertex(vs, link.linkId);
    if link.kind == LINK_P2P && Improves(vs, sel, link, d) {
      LoweredKeeps(db, root, vs, c, sel, done, link, d);
    } else {
      UnchangedTight(vs, c, sel, done, link, d);
    }
  }

  /** The same routers with the same visited flags. */
  ghost predicate SameFrame(a: seq<Vertex>, b: seq<Vertex>) {
    |a| == |b| && forall i :: 0 <= i < |a| ==> a[i].routerId == b[i].routerId && a[i].visited == b[i].visited
  }

  /** All links of the selected vertex. */
  lemma {:induction false} RelaxAllKeeps(db: seq<Option<Lsa>>, root: u32, vs: seq<Vertex>, c: nat, sel: nat,
                                         links: seq<Link>)
    requires InRound(db, root, vs, c, sel, []) && c <= 0xFFFF
    requires forall k :: 0 <= k < |links| && links[k].kind == LINK_P2P ==>
               IsEdge(db, Edge(vs[sel].routerId, links[k].linkId, links[k].metric))
    ensures RelaxAll(vs, sel, links).Some?
    ensures InRound(db, root, RelaxAll(vs, sel, links).value, c, sel, links)
    ensures SameFrame(vs, RelaxAll(vs, sel, links).value)
  {
    if links != [] {
      var front, link := links[..|links| - 1], links[|links| - 1];
      assert front + [link] == links;
      RelaxAllKeeps(db, root, vs, c, sel, front);
      var mid := RelaxAll(vs, sel, front).value;
      RelaxKeeps(db, root, mid, c, sel, front, link);
    }
  }

  function Visit(vs: seq<Vertex>, sel: nat): seq<Vertex>
    requires sel < |vs|
  {
    vs[sel := vs[sel].(visited := true)]
  }

  /** The selection rule: an unvisited reachable vertex, nearest first, smaller router id on ties. */
  ghost predicate IsNearest(vs: seq<Vertex>, sel: nat) {
    && sel < |vs| && !vs[sel].visited && vs[sel].distance < INFINITY
    && forall i :: 0 <= i < |vs| && !vs[i].visited ==>
         vs[sel].distance < vs[i].distance || (vs[sel].distance == vs[i].distance && vs[sel].routerId <= vs[i].routerId)
  }

  /** The selection scan: the nearest unvisited vertex, or -1 when none is reachable. */
  function Nearest(vs: seq<Vertex>): (sel: int)
    ensures -1 <= sel < |vs|
    ensures sel == -1 <==> Exhausted(vs)
    ensures sel >= 0 ==> IsNearest(vs, sel)
  {
    if vs == [] then -1
    else
      var n := |vs| - 1;
      var sel, v := Nearest(vs[..n]), vs[n];
      if v.visited || v.distance == INFINITY then sel
      else if sel == -1 || v.distance < vs[sel].distance ||
              (v.distance == vs[sel].distance && v.routerId < vs[sel].routerId) then n
      else sel
  }

  lemma VisitTight(db: seq<Option<Lsa>>, vs: seq<Vertex>, sel: nat)
    requires sel < |vs| && TightExcept(db, vs, -1)
    ensures TightExcept(db, Visit(vs, sel), sel)
  {
    forall i | 0 <= i < |vs| && vs[i].visited && i != sel
      ensures Tight(Visit(vs, sel), i, OutLinks(db, vs[i].routerId)) {
      assert Tight(vs, i, OutLinks(db, vs[i].routerId));
    }
  }

  lemma VisitHops(db: seq<Option<Lsa>>, root: u32, vs: seq<Vertex>, sel: nat)
    requires sel < |vs| && Hops(db, root, vs)
    ensures Hops(db, root, Visit(vs, sel))
  {
    forall i | 0 < i < |vs| && vs[i].distance < INFINITY ensures HopRight(db, root, Visit(vs, sel), i) {
      assert HopRight(db, root, vs, i);
    }
  }

  lemma VisitOrdered(vs: seq<Vertex>, c: nat, sel: nat)
    requires Ordered(vs) && Bounded(vs, c) && IsNearest(vs, sel) && (vs[0].visited || sel == 0)
    ensures Ordered(Visit(vs, sel)) && Bounded(Visit(vs, sel), c + 1) && Farthest(Visit(vs, sel), c + 1, sel)
  {
  }

  /** Marking the nearest unvisited vertex opens a round. */
  lemma VisitKeeps(db: seq<Option<Lsa>>, root: u32, vs: seq<Vertex>, c: nat, sel: nat)
    requires Inv(db, root, vs, c) && IsNearest(vs, sel) && (vs[0].visited || sel == 0)
    ensures InRound(db, root, Visit(vs, sel), c + 1, sel, [])
  {
    VisitTight(db, vs, sel);
    VisitHops(db, root, vs, sel);
    VisitOrdered(vs, c, sel);
    VisitNamed(root, vs, sel);
    SameIdsCover(db, vs, Visit(vs, sel));
  }

  lemma VisitNamed(root: u32, vs: seq<Vertex>, sel: nat)
    requires sel < |vs| && Named(root, vs)
    ensures Named(root, Visit(vs, sel)) && SameIds(vs, Visit(vs, sel))
  {
  }

  /** A completed round: the selected vertex joins the tight ones. */
  lemma RoundKeeps(db: seq<Option<Lsa>>, root: u32, vs: seq<Vertex>, c: nat, sel: nat)
    requires sel < |vs| && InRound(db, root, vs, c, sel, OutLinks(db, vs[sel].routerId))
    ensures Inv(db, root, vs, c)
  {
  }

  /** Every unvisited vertex is unreachable: the loop is over. */
  ghost predicate Exhausted(vs: seq<Vertex>) {
    forall k :: 0 <= k < |vs| ==> vs[k].visited || vs[k].distance == INFINITY
  }

  /** When the loop is over, no path is shorter than the recorded distance. */
  lemma {:induction false} NoShorterWalk(db: seq<Option<Lsa>>, root: u32, vs: seq<Vertex>, c: nat, p: seq<Edge>, i: nat)
    requires Named(root, vs) && Covers(db, vs) && TightExcept(db, vs, -1) && Ordered(vs) && Exhausted(vs)
    requires Bounded(vs, c) && c <= 0xFFFF
    requires i < |vs| && IsWalk(db, root, p, vs[i].routerId)
    ensures vs[i].distance < INFINITY && vs[i].distance <= Cost(p)
  {
    if p != [] {
      var e := p[|p| - 1];
      assert HasId(vs, e.from);
      var u :| 0 <= u < |vs| && vs[u].routerId == e.from;
      NoShorterWalk(db, root, vs, c, p[..|p| - 1], u);
      OutLinksAreEdges(db, e.from, e.to, e.weight);
      var links := OutLinks(db, e.from);
      var k :| 0 <= k < |links| && LinkIs(links[k], e.to, e.weight);
      assert Tight(vs, u, links);
    }
  }

  /** The finished computation is a shortest-path tree. */
  lemma FinishedIsTree(db: seq<Option<Lsa>>, root: u32, vs: seq<Vertex>, c: nat)
    requires Inv(db, root, vs, c) && Exhausted(vs) && c <= 0xFFFF
    ensures IsShortestPathTree(db, root, vs)
  {
    forall i, p | 0 <= i < |vs| && IsWalk(db, root, p, vs[i].routerId) ensures NoFartherThan(vs, i, p) {
      NoShorterWalk(db, root, vs, c, p, i);
    }
    assert Minimal(db, root, vs);
  }

  /** Reading off a finished tree: a vertex with a path is finite, no farther than the path, and has a right first
      hop. */
  lemma TreeAt(db: seq<Option<Lsa>>, root: u32, vs: seq<Vertex>, p: seq<Edge>, i: nat)
    requires IsShortestPathTree(db, root, vs) && i < |vs| && IsWalk(db, root, p, vs[i].routerId)
    ensures vs[i].distance < INFINITY && vs[i].distance <= Cost(p) && (i > 0 ==> HopRight(db, root, vs, i))
  {
  }
}
