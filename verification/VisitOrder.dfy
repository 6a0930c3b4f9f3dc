/** The order in which the shortest-path computation visits the routers, and what it decides. */
module VisitOrder {
  import opened NetTypes
  import opened OspfTypes
  import opened ShortestPaths
  import opened SpfLoops
  import TieBreaks
  import NoRings

  /** The graph a database describes. */
  ghost function GraphOf(db: seq<Option<Lsa>>): TieBreaks.Graph {
    iset e: Edge | IsEdge(db, e)
  }

  /** An edge of weight `w` between two vertices. */
  ghost predicate Joined(g: TieBreaks.Graph, vs: seq<Vertex>, u: nat, v: nat, w: nat)
    requires u < |vs| && v < |vs|
  {
    Edge(vs[u].routerId, vs[v].routerId, w) in g
  }

  // ---------- The record of one computation ----------

  /** The visited vertices in order, and the place of each of them in that order. */
  datatype Log = Log(order: seq<nat>, place: seq<nat>)

  ghost predicate Listed(vs: seq<Vertex>, log: Log) {
    && |log.place| == |vs| && (log.order != [] ==> log.order[0] == 0)
    && (forall k :: 0 <= k < |log.order| ==>
          log.order[k] < |vs| && vs[log.order[k]].visited && log.place[log.order[k]] == k)
    && (forall i :: 0 <= i < |vs| && vs[i].visited ==> log.place[i] < |log.order| && log.order[log.place[i]] == i)
  }

  /** `v` is visited after `u`, if at all. */
  ghost predicate After(vs: seq<Vertex>, log: Log, u: nat, v: nat)
    requires Listed(vs, log) && u < |vs| && v < |vs|
  {
    vs[u].visited && (vs[v].visited ==> log.place[u] < log.place[v])
  }

  /** When `x` was visited, it preceded every other vertex on offer from `u`. */
  ghost predicate ChosenOver(g: TieBreaks.Graph, vs: seq<Vertex>, log: Log, u: nat, x: nat, v: nat)
    requires Listed(vs, log) && u < |vs| && x < |vs| && v < |vs|
  {
    vs[x].visited && After(vs, log, u, x) && After(vs, log, x, v) ==>
      forall w: nat :: Joined(g, vs, u, v, w) ==>
        TieBreaks.Precedes(vs[x].distance, vs[x].routerId, vs[u].distance + w, vs[v].routerId)
  }

  ghost predicate Chosen(g: TieBreaks.Graph, vs: seq<Vertex>, log: Log)
    requires Listed(vs, log)
  {
    forall u, x, v {:trigger ChosenOver(g, vs, log, u, x, v)} ::
      0 <= u < |vs| && 0 <= x < |vs| && 0 <= v < |vs| ==> ChosenOver(g, vs, log, u, x, v)
  }

  /** Vertex `v` has its distance and its first hop from its predecessor, the first visited to offer that distance. */
  ghost predicate Inherits(g: TieBreaks.Graph, vs: seq<Vertex>, log: Log, v: nat)
    requires Listed(vs, log) && v < |vs|
  {
    var u := vs[v].predecessor;
    && 0 <= u < |vs| && After(vs, log, u, v)
    && vs[u].distance <= vs[v].distance && Joined(g, vs, u, v, vs[v].distance - vs[u].distance)
    && vs[v].firstHop == (if u == 0 then v else vs[u].firstHop)
    && (forall x, w: nat {:trigger Joined(g, vs, x, v, w)} ::
          0 <= x < |vs| && vs[x].visited && log.place[x] < log.place[u] && Joined(g, vs, x, v, w) ==>
            vs[v].distance < vs[x].distance + w)
  }

  ghost predicate AllInherit(g: TieBreaks.Graph, vs: seq<Vertex>, log: Log)
    requires Listed(vs, log)
  {
    forall v {:trigger Inherits(g, vs, log, v)} ::
      0 < v < |vs| && vs[v].distance < INFINITY ==> Inherits(g, vs, log, v)
  }

  ghost predicate Logged(g: TieBreaks.Graph, vs: seq<Vertex>, log: Log) {
    Listed(vs, log) && Chosen(g, vs, log) && AllInherit(g, vs, log)
  }

  // ---------- One round ----------

  /** What a round that visits `sel` does to vertex `v`. */
  ghost predicate MovedOne(g: TieBreaks.Graph, vs: seq<Vertex>, sel: nat, vs': seq<Vertex>, v: nat)
    requires sel < |vs| == |vs'| && v < |vs|
  {
    || vs'[v] == vs[v].(visited := vs[v].visited || v == sel)
    || (&& !vs[v].visited && v != sel && vs[sel].distance <= vs'[v].distance < vs[v].distance
        && Joined(g, vs, sel, v, vs'[v].distance - vs[sel].distance)
        && vs'[v] == vs[v].(distance := vs'[v].distance, predecessor := sel,
                            firstHop := if sel == 0 then v else vs[sel].firstHop))
  }

  ghost predicate Moved(g: TieBreaks.Graph, vs: seq<Vertex>, sel: nat, vs': seq<Vertex>) {
    && sel < |vs| == |vs'|
    && forall v {:trigger MovedOne(g, vs, sel, vs', v)} :: 0 <= v < |vs| ==> MovedOne(g, vs, sel, vs', v)
  }

  lemma RelaxMoves(g: TieBreaks.Graph, vs: seq<Vertex>, sel: nat, mid: seq<Vertex>, link: Link)
    requires Moved(g, vs, sel, mid) && Relax(mid, sel, link).Some?
    requires link.kind == LINK_P2P ==> Edge(vs[sel].routerId, link.linkId, link.metric) in g
    ensures Moved(g, vs, sel, Relax(mid, sel, link).value)
  {
    var vs' := Relax(mid, sel, link).value;
    assert MovedOne(g, vs, sel, mid, sel);
    forall v | 0 <= v < |vs| ensures MovedOne(g, vs, sel, vs', v) {
      assert MovedOne(g, vs, sel, mid, v);
    }
  }

  lemma {:induction false} RelaxAllMoves(g: TieBreaks.Graph, vs: seq<Vertex>, sel: nat, links: seq<Link>)
    requires sel < |vs| && RelaxAll(Visit(vs, sel), sel, links).Some?
    requires forall k :: 0 <= k < |links| && links[k].kind == LINK_P2P ==>
               Edge(vs[sel].routerId, links[k].linkId, links[k].metric) in g
    ensures Moved(g, vs, sel, RelaxAll(Visit(vs, sel), sel, links).value)
  {
    if links != [] {
      var front := links[..|links| - 1];
      RelaxAllMoves(g, vs, sel, front);
      RelaxMoves(g, vs, sel, RelaxAll(Visit(vs, sel), sel, front).value, links[|links| - 1]);
    }
  }

  lemma RoundMoves(db: seq<Option<Lsa>>, vs: seq<Vertex>, sel: nat, vs': seq<Vertex>)
    requires sel < |vs| && Round(db, vs, sel) == Some(vs')
    ensures Moved(GraphOf(db), vs, sel, vs')
  {
    OutLinksEdges(db, vs[sel].routerId);
    RelaxAllMoves(GraphOf(db), vs, sel, OutLinks(db, vs[sel].routerId));
  }

  /** No edge out of a visited vertex improves anything. */
  ghost predicate EdgesTight(g: TieBreaks.Graph, vs: seq<Vertex>) {
    forall u, v, w: nat {:trigger Joined(g, vs, u, v, w)} ::
      0 <= u < |vs| && 0 <= v < |vs| && vs[u].visited && Joined(g, vs, u, v, w) ==> vs[v].distance <= vs[u].distance + w
  }

  lemma TightEdges(db: seq<Option<Lsa>>, vs: seq<Vertex>)
    requires TightExcept(db, vs, -1)
    ensures EdgesTight(GraphOf(db), vs)
  {
    forall u, v, w: nat | 0 <= u < |vs| && 0 <= v < |vs| && vs[u].visited && Joined(GraphOf(db), vs, u, v, w)
      ensures vs[v].distance <= vs[u].distance + w
    {
      OutLinksAreEdges(db, vs[u].routerId, vs[v].routerId, w);
      var links := OutLinks(db, vs[u].routerId);
      var k :| 0 <= k < |links| && LinkIs(links[k], vs[v].routerId, w);
      assert ShortestPaths.Tight(vs, u, links);
    }
  }

  /** The log with one more visited vertex. */
  ghost function Extended(log: Log, sel: nat): Log
    requires sel < |log.place|
  {
    Log(log.order + [sel], log.place[sel := |log.order|])
  }

  lemma ExtendedListed(g: TieBreaks.Graph, vs: seq<Vertex>, log: Log, sel: nat, vs': seq<Vertex>)
    requires Listed(vs, log) && Moved(g, vs, sel, vs') && !vs[sel].visited && (log.order == [] ==> sel == 0)
    ensures Listed(vs', Extended(log, sel))
  {
    var log' := Extended(log, sel);
    forall i | 0 <= i < |vs'| ensures vs'[i].visited == (vs[i].visited || i == sel) {
      assert MovedOne(g, vs, sel, vs', i);
    }
    forall k | 0 <= k < |log'.order|
      ensures log'.order[k] < |vs'| && vs'[log'.order[k]].visited && log'.place[log'.order[k]] == k
    {
      if k < |log.order| { assert log.order[k] != sel; }
    }
  }

  /** What the round leaves alone: routers, visited distances, the order among those visited before. */
  lemma Kept(g: TieBreaks.Graph, vs: seq<Vertex>, log: Log, sel: nat, vs': seq<Vertex>, i: nat)
    requires Listed(vs, log) && Moved(g, vs, sel, vs') && i < |vs|
    ensures vs'[i].routerId == vs[i].routerId && vs'[i].visited == (vs[i].visited || i == sel)
    ensures vs'[i].visited ==> vs'[i].distance == vs[i].distance && vs'[i].firstHop == vs[i].firstHop
    ensures Extended(log, sel).place[i] == if i == sel then |log.order| else log.place[i]
  {
    assert MovedOne(g, vs, sel, vs', i);
  }

  lemma NewChosen(g: TieBreaks.Graph, vs: seq<Vertex>, sel: nat, u: nat, v: nat, w: nat)
    requires u < |vs| && v < |vs| && vs[u].visited && !vs[v].visited && v != sel && Joined(g, vs, u, v, w)
    requires EdgesTight(g, vs) && IsNearest(vs, sel) && DistinctIds(vs)
    ensures TieBreaks.Precedes(vs[sel].distance, vs[sel].routerId, vs[u].distance + w, vs[v].routerId)
  {
    assert vs[sel].routerId != vs[v].routerId;
  }

  lemma ExtendedChosen(g: TieBreaks.Graph, vs: seq<Vertex>, log: Log, sel: nat, vs': seq<Vertex>)
    requires Logged(g, vs, log) && Moved(g, vs, sel, vs') && Listed(vs', Extended(log, sel))
    requires EdgesTight(g, vs) && IsNearest(vs, sel) && DistinctIds(vs)
    ensures Chosen(g, vs', Extended(log, sel))
  {
    var log' := Extended(log, sel);
    forall u, x, v | 0 <= u < |vs| && 0 <= x < |vs| && 0 <= v < |vs| ensures ChosenOver(g, vs', log', u, x, v) {
      Kept(g, vs, log, sel, vs', u);
      Kept(g, vs, log, sel, vs', x);
      Kept(g, vs, log, sel, vs', v);
      if vs'[x].visited && After(vs', log', u, x) && After(vs', log', x, v) {
        forall w: nat | Joined(g, vs', u, v, w)
          ensures TieBreaks.Precedes(vs'[x].distance, vs'[x].routerId, vs'[u].distance + w, vs'[v].routerId)
        {
          assert Joined(g, vs, u, v, w);
          if x == sel {
            NewChosen(g, vs, sel, u, v, w);
          } else {
            assert ChosenOver(g, vs, log, u, x, v);
          }
        }
      }
    }
  }

  lemma ImprovedInherits(g: TieBreaks.Graph, vs: seq<Vertex>, log: Log, sel: nat, vs': seq<Vertex>, v: nat)
    requires Listed(vs, log) && Moved(g, vs, sel, vs') && Listed(vs', Extended(log, sel))
    requires EdgesTight(g, vs) && v < |vs| && vs'[v].distance != vs[v].distance
    ensures Inherits(g, vs', Extended(log, sel), v)
  {
    var log' := Extended(log, sel);
    Kept(g, vs, log, sel, vs', sel);
    Kept(g, vs, log, sel, vs', v);
    assert MovedOne(g, vs, sel, vs', v);
    assert Joined(g, vs, sel, v, vs'[v].distance - vs[sel].distance);
    forall x, w: nat | 0 <= x < |vs| && vs'[x].visited && log'.place[x] < log'.place[sel] && Joined(g, vs', x, v, w)
      ensures vs'[v].distance < vs'[x].distance + w
    {
      Kept(g, vs, log, sel, vs', x);
      assert Joined(g, vs, x, v, w);
    }
  }

  lemma OldInherits(g: TieBreaks.Graph, vs: seq<Vertex>, log: Log, sel: nat, vs': seq<Vertex>, v: nat)
    requires Listed(vs, log) && Moved(g, vs, sel, vs') && Listed(vs', Extended(log, sel)) && !vs[sel].visited
    requires v < |vs| && vs'[v].distance == vs[v].distance && Inherits(g, vs, log, v)
    ensures Inherits(g, vs', Extended(log, sel), v)
  {
    var log', u := Extended(log, sel), vs[v].predecessor;
    Kept(g, vs, log, sel, vs', v);
    Kept(g, vs, log, sel, vs', u);
    assert MovedOne(g, vs, sel, vs', v);
    assert Joined(g, vs, u, v, vs[v].distance - vs[u].distance);
    forall x, w: nat | 0 <= x < |vs| && vs'[x].visited && log'.place[x] < log'.place[u] && Joined(g, vs', x, v, w)
      ensures vs'[v].distance < vs'[x].distance + w
    {
      Kept(g, vs, log, sel, vs', x);
      assert Joined(g, vs, x, v, w);
    }
  }

  /** A round extends the record by the selected vertex. */
  lemma RoundLogged(g: TieBreaks.Graph, vs: seq<Vertex>, log: Log, sel: nat, vs': seq<Vertex>)
    requires Logged(g, vs, log) && Moved(g, vs, sel, vs') && (log.order == [] ==> sel == 0)
    requires EdgesTight(g, vs) && IsNearest(vs, sel) && DistinctIds(vs)
    ensures Logged(g, vs', Extended(log, sel))
  {
    ExtendedListed(g, vs, log, sel, vs');
    ExtendedChosen(g, vs, log, sel, vs');
    forall v | 0 < v < |vs| && vs'[v].distance < INFINITY ensures Inherits(g, vs', Extended(log, sel), v) {
      if vs'[v].distance == vs[v].distance {
        assert Inherits(g, vs, log, v);
        OldInherits(g, vs, log, sel, vs', v);
      } else {
        ImprovedInherits(g, vs, log, sel, vs', v);
      }
    }
  }

  lemma NextLogged(db: seq<Option<Lsa>>, root: u32, vs: seq<Vertex>, log: Log, sel: nat, vs': seq<Vertex>)
    requires Sound(db, root, vs) && Logged(GraphOf(db), vs, log)
    requires sel == Nearest(vs) && Round(db, vs, sel) == Some(vs')
    ensures Logged(GraphOf(db), vs', Extended(log, sel))
  {
    RoundMoves(db, vs, sel, vs');
    TightEdges(db, vs);
    RootIsFirst(db, root, vs, log, sel);
    RoundLogged(GraphOf(db), vs, log, sel, vs');
  }

  /** The whole iteration keeps a record. */
  lemma {:induction false} SpfFromLogged(db: seq<Option<Lsa>>, root: u32, vs: seq<Vertex>, log: Log) returns (log': Log)
    requires Sound(db, root, vs) && Logged(GraphOf(db), vs, log)
    ensures SpfFrom(db, vs).Some? && Logged(GraphOf(db), SpfFrom(db, vs).value, log')
    decreases |vs| - CountVisited(vs)
  {
    var sel := Nearest(vs);
    if sel < 0 {
      log' := log;
    } else {
      RoundStaysSound(db, root, vs, sel);
      NextLogged(db, root, vs, log, sel, Round(db, vs, sel).value);
      log' := SpfFromLogged(db, root, Round(db, vs, sel).value, Extended(log, sel));
    }
  }

  lemma RootIsFirst(db: seq<Option<Lsa>>, root: u32, vs: seq<Vertex>, log: Log, sel: nat)
    requires Sound(db, root, vs) && Listed(vs, log) && sel == Nearest(vs)
    ensures log.order == [] ==> sel == 0
  {
  }

  // ---------- The finished computation, by router id ----------

  ghost function VisitedIds(vs: seq<Vertex>): set<u32> {
    set i | 0 <= i < |vs| && vs[i].visited :: vs[i].routerId
  }

  ghost function PlaceOf(vs: seq<Vertex>, log: Log, id: u32): nat {
    var i := FindVertex(vs, id);
    if 0 <= i < |log.place| then log.place[i] else 0
  }

  ghost function DistOf(vs: seq<Vertex>, id: u32): nat {
    var i := FindVertex(vs, id);
    if i >= 0 then vs[i].distance else 0
  }

  ghost function IdAt(vs: seq<Vertex>, i: int): u32 {
    if 0 <= i < |vs| then vs[i].routerId else 0
  }

  ghost function FromOf(vs: seq<Vertex>, id: u32): u32 {
    var i := FindVertex(vs, id);
    if i >= 0 then IdAt(vs, vs[i].predecessor) else 0
  }

  ghost function HopOf(vs: seq<Vertex>, id: u32): u32 {
    var i := FindVertex(vs, id);
    if i >= 0 then IdAt(vs, vs[i].firstHop) else 0
  }

  ghost function TripOf(root: u32, vs: seq<Vertex>, log: Log): TieBreaks.Trip {
    TieBreaks.Trip(root,
                   seq(|log.order|, k requires 0 <= k < |log.order| => IdAt(vs, log.order[k])),
                   Known(VisitedIds(vs), id => PlaceOf(vs, log, id)),
                   Known(VisitedIds(vs), id => DistOf(vs, id)),
                   Known(VisitedIds(vs) - {root}, id => FromOf(vs, id)),
                   Known(VisitedIds(vs) - {root}, id => HopOf(vs, id)))
  }

  /** `f` on the given routers, as a map. */
  ghost function Known<T>(ids: set<u32>, f: u32 -> T): (m: map<u32, T>)
    ensures m.Keys == ids && forall id :: id in ids ==> m[id] == f(id)
  {
    map id | id in ids :: f(id)
  }

  /** A computation that is over, with its record. */
  ghost predicate Finished(g: TieBreaks.Graph, root: u32, vs: seq<Vertex>, log: Log) {
    && Named(root, vs) && Logged(g, vs, log) && EdgesTight(g, vs) && Exhausted(vs)
    && (forall e :: e in g && HasId(vs, e.from) ==> HasId(vs, e.to) && e.weight <= 0xFFFF)
    && (forall i :: 0 <= i < |vs| && vs[i].visited ==> vs[i].distance + 0xFFFF < INFINITY)
  }

  lemma SlotOfId(vs: seq<Vertex>, i: nat)
    requires DistinctIds(vs) && i < |vs|
    ensures FindVertex(vs, vs[i].routerId) == i
  {
  }

  /** What the record of a computation says of visited vertex `i`. */
  ghost predicate AtVertex(t: TieBreaks.Trip, vs: seq<Vertex>, log: Log, i: nat)
    requires Listed(vs, log) && i < |vs|
  {
    var id := vs[i].routerId;
    && id in t.dist && t.dist[id] == vs[i].distance && id in t.pos && t.pos[id] == log.place[i]
    && (id != t.root ==>
          && id in t.from && t.from[id] == IdAt(vs, vs[i].predecessor)
          && id in t.hop && t.hop[id] == IdAt(vs, vs[i].firstHop))
  }

  ghost predicate Tells(t: TieBreaks.Trip, vs: seq<Vertex>, log: Log)
    requires Listed(vs, log)
  {
    && |t.order| == |log.order| && (forall k :: 0 <= k < |t.order| ==> t.order[k] == vs[log.order[k]].routerId)
    && t.dist.Keys == VisitedIds(vs) && t.pos.Keys == t.dist.Keys
    && t.from.Keys == t.dist.Keys - {t.root} && t.hop.Keys == t.dist.Keys - {t.root}
    && (forall i {:trigger AtVertex(t, vs, log, i)} :: 0 <= i < |vs| && vs[i].visited ==> AtVertex(t, vs, log, i))
  }

  lemma TripTells(root: u32, vs: seq<Vertex>, log: Log)
    requires Listed(vs, log) && DistinctIds(vs)
    ensures Tells(TripOf(root, vs, log), vs, log)
  {
    TripKeys(root, vs, log);
    forall i | 0 <= i < |vs| && vs[i].visited ensures AtVertex(TripOf(root, vs, log), vs, log, i) {
      TripAt(root, vs, log, i);
    }
  }

  lemma TripKeys(root: u32, vs: seq<Vertex>, log: Log)
    requires forall k :: 0 <= k < |log.order| ==> log.order[k] < |vs|
    ensures var t := TripOf(root, vs, log);
            && |t.order| == |log.order| && (forall k :: 0 <= k < |t.order| ==> t.order[k] == vs[log.order[k]].routerId)
            && t.dist.Keys == VisitedIds(vs) && t.pos.Keys == t.dist.Keys
            && t.from.Keys == t.dist.Keys - {t.root} && t.hop.Keys == t.dist.Keys - {t.root}
  {
  }

  lemma TripAt(root: u32, vs: seq<Vertex>, log: Log, i: nat)
    requires Listed(vs, log) && DistinctIds(vs) && i < |vs| && vs[i].visited
    ensures AtVertex(TripOf(root, vs, log), vs, log, i)
  {
    SlotOfId(vs, i);
    assert vs[i].routerId in VisitedIds(vs);
  }

  lemma VertexFor(t: TieBreaks.Trip, vs: seq<Vertex>, log: Log, id: u32) returns (i: nat)
    requires Listed(vs, log) && Tells(t, vs, log) && id in t.dist
    ensures i < |vs| && vs[i].visited && vs[i].routerId == id && AtVertex(t, vs, log, i)
  {
    i :| 0 <= i < |vs| && vs[i].visited && vs[i].routerId == id;
    assert AtVertex(t, vs, log, i);
  }

  lemma TripShaped(t: TieBreaks.Trip, vs: seq<Vertex>, log: Log)
    requires Named(t.root, vs) && Listed(vs, log) && Exhausted(vs) && Tells(t, vs, log)
    ensures TieBreaks.Shaped(t)
  {
    assert AtVertex(t, vs, log, 0);
    forall v | v in t.pos ensures t.pos[v] < |t.order| && t.order[t.pos[v]] == v {
      var i := VertexFor(t, vs, log, v);
    }
    forall k | 0 <= k < |t.order| ensures t.order[k] in t.pos && t.pos[t.order[k]] == k {
      assert AtVertex(t, vs, log, log.order[k]);
    }
  }

  lemma TripSettled(g: TieBreaks.Graph, t: TieBreaks.Trip, vs: seq<Vertex>, log: Log)
    requires Finished(g, t.root, vs, log) && Tells(t, vs, log)
    ensures TieBreaks.Settled(g, t)
  {
    forall e | e in g && e.from in t.dist ensures e.to in t.dist && t.dist[e.to] <= t.dist[e.from] + e.weight {
      var u := VertexFor(t, vs, log, e.from);
      assert HasId(vs, e.from);
      var v :| 0 <= v < |vs| && vs[v].routerId == e.to;
      assert Joined(g, vs, u, v, e.weight);
      assert AtVertex(t, vs, log, v);
    }
  }

  lemma TripNearestFirst(g: TieBreaks.Graph, t: TieBreaks.Trip, vs: seq<Vertex>, log: Log)
    requires Listed(vs, log) && Chosen(g, vs, log) && Tells(t, vs, log) && TieBreaks.Shaped(t)
    ensures TieBreaks.NearestFirst(g, t)
  {
    forall y, e: Edge | e in g && TieBreaks.Passed(t, y, e)
      ensures TieBreaks.Precedes(t.dist[y], y, t.dist[e.from] + e.weight, e.to)
    {
      TripPrecedes(g, t, vs, log, y, e);
    }
  }

  lemma TripPrecedes(g: TieBreaks.Graph, t: TieBreaks.Trip, vs: seq<Vertex>, log: Log, y: u32, e: Edge)
    requires Listed(vs, log) && Chosen(g, vs, log) && Tells(t, vs, log) && e in g && TieBreaks.Passed(t, y, e)
    ensures y in t.dist && e.from in t.dist
    ensures TieBreaks.Precedes(t.dist[y], y, t.dist[e.from] + e.weight, e.to)
  {
    var u := VertexFor(t, vs, log, e.from);
    var x := VertexFor(t, vs, log, y);
    var v := VertexFor(t, vs, log, e.to);
    assert Joined(g, vs, u, v, e.weight);
    assert ChosenOver(g, vs, log, u, x, v);
  }

  lemma TripReached(g: TieBreaks.Graph, t: TieBreaks.Trip, vs: seq<Vertex>, log: Log, v: nat)
    requires Named(t.root, vs) && Listed(vs, log) && Tells(t, vs, log) && TieBreaks.Shaped(t)
    requires 0 < v < |vs| && vs[v].visited && Inherits(g, vs, log, v)
    ensures vs[v].routerId in t.from && TieBreaks.ReachedFrom(g, t, vs[v].routerId, t.from[vs[v].routerId])
  {
    var u := vs[v].predecessor;
    assert AtVertex(t, vs, log, v) && AtVertex(t, vs, log, u);
    TripTight(g, t, vs, log, u, v);
    forall y | TieBreaks.LeadsTo(g, t.dist, y, vs[v].routerId) ensures y in t.pos && log.place[u] <= t.pos[y] {
      TripEarliest(g, t, vs, log, v, y);
    }
    assert u != 0 ==> vs[u].routerId != t.root;
    assert t.from[vs[v].routerId] == vs[u].routerId;
    assert t.hop[vs[v].routerId] == if u == 0 then vs[v].routerId else t.hop[vs[u].routerId];
  }

  lemma TripTight(g: TieBreaks.Graph, t: TieBreaks.Trip, vs: seq<Vertex>, log: Log, u: nat, v: nat)
    requires Listed(vs, log) && u < |vs| && v < |vs| && AtVertex(t, vs, log, u) && AtVertex(t, vs, log, v)
    requires vs[u].distance <= vs[v].distance && Joined(g, vs, u, v, vs[v].distance - vs[u].distance)
    ensures TieBreaks.LeadsTo(g, t.dist, vs[u].routerId, vs[v].routerId)
  {
  }

  lemma TripEarliest(g: TieBreaks.Graph, t: TieBreaks.Trip, vs: seq<Vertex>, log: Log, v: nat, y: u32)
    requires Listed(vs, log) && Tells(t, vs, log) && v < |vs| && vs[v].visited && Inherits(g, vs, log, v)
    requires TieBreaks.LeadsTo(g, t.dist, y, vs[v].routerId)
    ensures y in t.pos && log.place[vs[v].predecessor] <= t.pos[y]
  {
    var x := VertexFor(t, vs, log, y);
    assert AtVertex(t, vs, log, v);
    assert Joined(g, vs, x, v, vs[v].distance - vs[x].distance);
  }

  /** The record of a finished computation says that it went nearest first. */
  lemma TripGreedy(g: TieBreaks.Graph, t: TieBreaks.Trip, vs: seq<Vertex>, log: Log)
    requires Finished(g, t.root, vs, log) && Tells(t, vs, log)
    ensures TieBreaks.Greedy(g, t)
  {
    TripShaped(t, vs, log);
    TripSettled(g, t, vs, log);
    TripNearestFirst(g, t, vs, log);
    forall id | id in t.from ensures TieBreaks.ReachedFrom(g, t, id, t.from[id]) {
      var v := VertexFor(t, vs, log, id);
      assert Inherits(g, vs, log, v);
      TripReached(g, t, vs, log, v);
    }
  }

  /** The tree of every database was computed nearest first. */
  lemma TreeFinished(db: seq<Option<Lsa>>, root: u32) returns (log: Log)
    requires WellFormedDb(db) && |db| <= LSDB_SIZE
    ensures Finished(GraphOf(db), root, Tree(db, root), log)
  {
    var start := Collect(db, root);
    CollectCovers(db, root);
    CollectSound(db, root);
    log := SpfFromLogged(db, root, start, Log([], seq(|start|, _ => 0)));
    SpfFromSound(db, root, start);
    SoundFinished(db, root, Tree(db, root));
  }

  lemma SoundFinished(db: seq<Option<Lsa>>, root: u32, vs: seq<Vertex>)
    requires Sound(db, root, vs) && Exhausted(vs) && |vs| <= MaxNodes(LSDB_SIZE)
    ensures Named(root, vs) && EdgesTight(GraphOf(db), vs)
    ensures forall e :: e in GraphOf(db) && HasId(vs, e.from) ==> HasId(vs, e.to) && e.weight <= 0xFFFF
    ensures forall i :: 0 <= i < |vs| && vs[i].visited ==> vs[i].distance + 0xFFFF < INFINITY
  {
    TightEdges(db, vs);
  }

  /** The first router on the recorded shortest path to `dst` is `next`. */
  ghost predicate HandsOver(vs: seq<Vertex>, dst: u32, next: u32) {
    var i := FindVertex(vs, dst);
    0 < i && vs[i].distance < INFINITY && 0 <= vs[i].firstHop < |vs| && vs[vs[i].firstHop].routerId == next
  }

  lemma HandsOverTold(t: TieBreaks.Trip, vs: seq<Vertex>, log: Log, dst: u32, next: u32)
    requires Named(t.root, vs) && Listed(vs, log) && Exhausted(vs) && Tells(t, vs, log) && HandsOver(vs, dst, next)
    ensures NoRings.HandsOn(t, dst, next)
  {
    assert AtVertex(t, vs, log, FindVertex(vs, dst));
  }

  /** `t` tells how `root` computed its tree from `db`. */
  ghost predicate IsTripOf(t: TieBreaks.Trip, db: seq<Option<Lsa>>, root: u32)
    requires WellFormedDb(db) && |db| <= LSDB_SIZE
  {
    && t.root == root && TieBreaks.Greedy(GraphOf(db), t)
    && forall dst: u32, next: u32 :: HandsOver(Tree(db, root), dst, next) ==> NoRings.HandsOn(t, dst, next)
  }

  /** The computation of any router from any database went nearest first, smaller id on ties. */
  lemma TreeIsGreedy(db: seq<Option<Lsa>>, root: u32) returns (t: TieBreaks.Trip)
    requires WellFormedDb(db) && |db| <= LSDB_SIZE
    ensures IsTripOf(t, db, root)
  {
    var vs := Tree(db, root);
    var log := TreeFinished(db, root);
    t := TripOf(root, vs, log);
    TripTells(root, vs, log);
    TripGreedy(GraphOf(db), t, vs, log);
    forall dst: u32, next: u32 | HandsOver(vs, dst, next) ensures NoRings.HandsOn(t, dst, next) {
      HandsOverTold(t, vs, log, dst, next);
    }
  }
}
