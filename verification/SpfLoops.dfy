/** The loops of the shortest-path computation, on the vertex array the source works in. */
module SpfLoops {
  import opened NetTypes
  import opened Slots
  import opened OspfTypes
  import opened ShortestPaths

  /** `ospf_ensure_spf_vertex` when there is room. */
  function Ensure(vs: seq<Vertex>, id: u32): (r: seq<Vertex>)
    ensures |vs| <= |r| <= |vs| + 1 && vs <= r && HasId(r, id)
    ensures DistinctIds(vs) ==> DistinctIds(r)
  {
    if FindVertex(vs, id) >= 0 then vs
    else
      var r := vs + [Vertex(id, INFINITY, -1, -1, false)];
      assert r[|vs|].routerId == id;
      r
  }

  function EnsureLinks(vs: seq<Vertex>, links: seq<Link>): (r: seq<Vertex>)
    ensures |vs| <= |r| <= |vs| + |links|
  {
    if links == [] then vs
    else
      var r, link := EnsureLinks(vs, links[..|links| - 1]), links[|links| - 1];
      if link.kind == LINK_P2P then Ensure(r, link.linkId) else r
  }

  /** The vertex list collected from the database: the root, then every router in order of first mention. */
  function Collect(db: seq<Option<Lsa>>, root: u32): (r: seq<Vertex>)
    requires WellFormedDb(db)
    ensures 1 <= |r| <= MaxNodes(|db|)
  {
    if db == [] then [Vertex(root, 0, -1, -1, false)]
    else CollectSlot(Collect(db[..|db| - 1], root), db[|db| - 1])
  }

  /** The routers one slot mentions. */
  function CollectSlot(vs: seq<Vertex>, slot: Option<Lsa>): (r: seq<Vertex>)
    ensures |vs| <= |r| <= |vs| + 1 + if slot.Some? then |slot.value.links| else 0
  {
    if slot.None? || slot.value.lsaType != LSA_TYPE_ROUTER then vs
    else EnsureLinks(Ensure(vs, slot.value.advRouter), slot.value.links)
  }

  /** The fresh vertices keep the root in front and are all unvisited and, but for the root, unreached. */
  ghost predicate Fresh(root: u32, vs: seq<Vertex>) {
    Named(root, vs) && forall i :: 0 <= i < |vs| ==> !vs[i].visited && (i > 0 ==> vs[i].distance == INFINITY)
  }

  lemma EnsureFresh(root: u32, vs: seq<Vertex>, id: u32)
    requires Fresh(root, vs)
    ensures Fresh(root, Ensure(vs, id))
  {
  }

  lemma {:induction false} EnsureLinksFresh(root: u32, vs: seq<Vertex>, links: seq<Link>, j: nat)
    requires Fresh(root, vs)
    ensures Fresh(root, EnsureLinks(vs, links)) && vs <= EnsureLinks(vs, links)
    ensures j < |links| && links[j].kind == LINK_P2P ==> HasId(EnsureLinks(vs, links), links[j].linkId)
  {
    if links != [] {
      var n := |links| - 1;
      var r := EnsureLinks(vs, links[..n]);
      EnsureLinksFresh(root, vs, links[..n], j);
      if links[n].kind == LINK_P2P {
        EnsureFresh(root, r, links[n].linkId);
        if j < n && links[j].kind == LINK_P2P { PrefixHasId(r, Ensure(r, links[n].linkId), links[j].linkId); }
      }
    }
  }

  lemma PrefixHasId(a: seq<Vertex>, b: seq<Vertex>, id: u32)
    requires a <= b && HasId(a, id)
    ensures HasId(b, id)
  {
    var i :| 0 <= i < |a| && a[i].routerId == id;
    assert b[i].routerId == id;
  }

  /** Adding the routers of one more slot covers one more slot. */
  lemma CoversSnoc(db: seq<Option<Lsa>>, slot: Option<Lsa>, vs: seq<Vertex>, vs': seq<Vertex>)
    requires Covers(db, vs) && vs <= vs'
    requires slot.Some? && slot.value.lsaType == LSA_TYPE_ROUTER ==>
               && HasId(vs', slot.value.advRouter)
               && forall j :: 0 <= j < |slot.value.links| && slot.value.links[j].kind == LINK_P2P ==>
                    HasId(vs', slot.value.links[j].linkId)
    ensures Covers(db + [slot], vs')
  {
    var all := db + [slot];
    forall e | IsEdge(all, e) ensures HasId(vs', e.from) && HasId(vs', e.to) {
      var i, j :| 0 <= i < |all| && IsRouterLsa(all[i], e.from) && 0 <= j < |all[i].value.links| &&
                  LinkIs(all[i].value.links[j], e.to, e.weight);
      if i < |db| {
        assert IsRouterLsa(db[i], e.from);
        assert IsEdge(db, e);
        PrefixHasId(vs, vs', e.from);
        PrefixHasId(vs, vs', e.to);
      }
    }
  }

  lemma LsaCovers(db: seq<Option<Lsa>>, lsa: Lsa, root: u32, vs: seq<Vertex>, vs': seq<Vertex>)
    requires Fresh(root, vs) && Covers(db, vs) && vs' == EnsureLinks(Ensure(vs, lsa.advRouter), lsa.links)
    ensures Fresh(root, vs') && Covers(db + [Some(lsa)], vs')
  {
    var mid := Ensure(vs, lsa.advRouter);
    EnsureFresh(root, vs, lsa.advRouter);
    EnsureLinksFresh(root, mid, lsa.links, 0);
    forall j | 0 <= j < |lsa.links| && lsa.links[j].kind == LINK_P2P ensures HasId(vs', lsa.links[j].linkId) {
      EnsureLinksFresh(root, mid, lsa.links, j);
    }
    PrefixHasId(mid, vs', lsa.advRouter);
    CoversSnoc(db, Some(lsa), vs, vs');
  }

  /** Collecting never runs out of vertices, and every router of the graph gets one. */
  lemma {:induction false} CollectCovers(db: seq<Option<Lsa>>, root: u32)
    requires WellFormedDb(db)
    ensures Fresh(root, Collect(db, root)) && Covers(db, Collect(db, root))
  {
    if db != [] {
      var front, slot := db[..|db| - 1], db[|db| - 1];
      assert front + [slot] == db;
      CollectCovers(front, root);
      var vs := Collect(front, root);
      if slot.Some? && slot.value.lsaType == LSA_TYPE_ROUTER {
        LsaCovers(front, slot.value, root, vs, Collect(db, root));
      } else {
        CoversSnoc(front, slot, vs, vs);
      }
    }
  }

  lemma FreshInv(db: seq<Option<Lsa>>, root: u32, vs: seq<Vertex>)
    requires Fresh(root, vs) && Covers(db, vs)
    ensures Inv(db, root, vs, 0)
  {
  }

  /** Every reachable router has a vertex. */
  lemma WalkHasVertex(db: seq<Option<Lsa>>, root: u32, vs: seq<Vertex>, p: seq<Edge>, v: u32)
    requires Named(root, vs) && Covers(db, vs) && IsWalk(db, root, p, v)
    ensures HasId(vs, v)
  {
  }

  /** `ospf_ensure_spf_vertex`: -1 exactly when the array is full and the router is new. */
  method EnsureVertex(vertices: array<Vertex>, n: nat, id: u32) returns (index: int, n': nat)
    requires n <= vertices.Length
    modifies vertices
    ensures index == -1 <==> FindVertex(old(vertices[..n]), id) < 0 && n == vertices.Length
    ensures n' <= vertices.Length && (index == -1 ==> n' == n && vertices[..] == old(vertices[..]))
    ensures index != -1 ==>
              vertices[..n'] == Ensure(old(vertices[..n]), id) && 0 <= index < n' && vertices[index].routerId == id
  {
    index := FindLoop(vertices, n, id);
    if index >= 0 { return index, n; }
    if n >= vertices.Length { return -1, n; }
    vertices[n] := Vertex(id, INFINITY, -1, -1, false);
    return n, n + 1;
  }

  /** `ospf_find_spf_vertex`. */
  method FindLoop(vertices: array<Vertex>, n: nat, id: u32) returns (index: int)
    requires n <= vertices.Length
    ensures index == FindVertex(vertices[..n], id)
  {
    index := 0;
    while index < n && vertices[index].routerId != id
      invariant 0 <= index <= n && forall k :: 0 <= k < index ==> vertices[k].routerId != id
    {
      index := index + 1;
    }
    assert index < n ==> vertices[..n][index].routerId == id;
    if index == n { index := -1; }
  }

  lemma {:induction false} EnsureLinksPrefix(vs: seq<Vertex>, links: seq<Link>, j: nat)
    requires j < |links|
    ensures EnsureLinks(vs, links[..j + 1]) ==
            if links[j].kind == LINK_P2P then Ensure(EnsureLinks(vs, links[..j]), links[j].linkId)
            else EnsureLinks(vs, links[..j])
  {
    assert links[..j + 1][..j] == links[..j];
  }

  /** The routers one advertisement links to; with room for each link the error return is not taken. */
  method CollectLinks(vertices: array<Vertex>, n0: nat, links: seq<Link>) returns (ok: bool, n: nat)
    requires n0 + |links| <= vertices.Length
    modifies vertices
    ensures ok && n0 <= n <= n0 + |links| && vertices[..n] == EnsureLinks(old(vertices[..n0]), links)
  {
    n := n0;
    ghost var start := vertices[..n0];
    for j := 0 to |links|
      invariant n0 <= n <= n0 + j && vertices[..n] == EnsureLinks(start, links[..j])
    {
      EnsureLinksPrefix(start, links, j);
      if links[j].kind != LINK_P2P { continue; }
      var index;
      index, n := EnsureVertex(vertices, n, links[j].linkId);
      if index < 0 { assert false; return false, n; }
    }
    assert links[..|links|] == links;
    ok := true;
  }

  lemma NodesGrow(i: nat, slots: nat)
    requires i < slots
    ensures MaxNodes(i) + 1 + MAX_LSA_LINKS == MaxNodes(i + 1) <= MaxNodes(slots)
  {
  }

  /** One round of the collection: the routers of one slot. */
  method CollectLsa(vertices: array<Vertex>, n0: nat, slot: Option<Lsa>) returns (ok: bool, n: nat)
    requires n0 + 1 + MAX_LSA_LINKS <= vertices.Length && (slot.Some? ==> WellFormedLsa(slot.value))
    modifies vertices
    ensures ok && n <= vertices.Length && vertices[..n] == CollectSlot(old(vertices[..n0]), slot)
  {
    if slot.None? || slot.value.lsaType != LSA_TYPE_ROUTER { return true, n0; }
    var index;
    index, n := EnsureVertex(vertices, n0, slot.value.advRouter);
    if index < 0 { assert false; return false, n; }
    assert n == |Ensure(old(vertices[..n0]), slot.value.advRouter)|;
    ok, n := CollectLinks(vertices, n, slot.value.links);
  }

  /** The vertices collected from the first `i` slots. */
  ghost function CollectedTo(db: seq<Option<Lsa>>, i: nat, root: u32): (r: seq<Vertex>)
    requires WellFormedDb(db) && i <= |db|
    ensures |r| <= MaxNodes(i)
  {
    Collect(db[..i], root)
  }

  lemma CollectEnds(db: seq<Option<Lsa>>, root: u32)
    requires WellFormedDb(db)
    ensures CollectedTo(db, 0, root) == [Vertex(root, 0, -1, -1, false)]
    ensures CollectedTo(db, |db|, root) == Collect(db, root)
  {
    assert db[..|db|] == db;
  }

  lemma CollectNext(db: seq<Option<Lsa>>, i: nat, root: u32)
    requires WellFormedDb(db) && i < |db|
    ensures CollectedTo(db, i + 1, root) == CollectSlot(CollectedTo(db, i, root), db[i])
    ensures |CollectedTo(db, i, root)| + 1 + MAX_LSA_LINKS <= MaxNodes(|db|)
  {
    assert db[..i + 1][..i] == db[..i];
    NodesGrow(i, |db|);
  }

  /** The collection loops; `ok` is false on the error return. */
  method CollectLoop(vertices: array<Vertex>, db: seq<Option<Lsa>>, root: u32) returns (ok: bool, n: nat)
    requires WellFormedDb(db) && vertices.Length == MaxNodes(|db|)
    modifies vertices
    ensures ok && n <= vertices.Length && vertices[..n] == Collect(db, root)
  {
    CollectEnds(db, root);
    vertices[0] := Vertex(root, 0, -1, -1, false);
    n := 1;
    for i := 0 to |db|
      invariant n <= vertices.Length && vertices[..n] == CollectedTo(db, i, root)
    {
      CollectNext(db, i, root);
      assert n == |CollectedTo(db, i, root)|;
      ok, n := CollectLsa(vertices, n, db[i]);
      if !ok { assert false; return false, n; }
    }
    ok := true;
  }

  /** The selection scan: the nearest unvisited vertex, or -1 when none is reachable. */
  method SelectLoop(vertices: array<Vertex>, n: nat) returns (sel: int)
    requires n <= vertices.Length
    ensures sel == Nearest(vertices[..n])
  {
    sel := -1;
    for i := 0 to n
      invariant sel == Nearest(vertices[..i])
    {
      assert vertices[..i + 1][..i] == vertices[..i];
      if vertices[i].visited || vertices[i].distance == INFINITY { continue; }
      if sel == -1 || vertices[i].distance < vertices[sel].distance ||
         (vertices[i].distance == vertices[sel].distance && vertices[i].routerId < vertices[sel].routerId) {
        sel := i;
      }
    }
  }

  /** One link of the selected vertex, in place. */
  method RelaxLink(vertices: array<Vertex>, n: nat, sel: nat, link: Link) returns (ok: bool)
    requires sel < n <= vertices.Length
    modifies vertices
    ensures ok <==> Relax(old(vertices[..n]), sel, link).Some?
    ensures ok ==> vertices[..n] == Relax(old(vertices[..n]), sel, link).value
  {
    ok := true;
    if link.kind != LINK_P2P { return; }
    var d := FindLoop(vertices, n, link.linkId);
    if d == -1 { return false; }
    if vertices[d].visited { return; }
    if vertices[sel].distance >= INFINITY - link.metric { return; }
    var distance := vertices[sel].distance + link.metric;
    if distance >= vertices[d].distance { return; }
    if sel == 0 {
      vertices[d] := vertices[d].(distance := distance, predecessor := sel, firstHop := d);
    } else {
      if vertices[sel].firstHop < 0 || vertices[sel].firstHop >= n { return false; }
      vertices[d] := vertices[d].(distance := distance, predecessor := sel, firstHop := vertices[sel].firstHop);
    }
  }

  lemma {:induction false} RelaxAllConcat(vs: seq<Vertex>, sel: nat, a: seq<Link>, b: seq<Link>)
    requires sel < |vs|
    ensures RelaxAll(vs, sel, a + b) ==
            if RelaxAll(vs, sel, a).None? then None else RelaxAll(RelaxAll(vs, sel, a).value, sel, b)
  {
    if b == [] {
      assert a + b == a;
    } else {
      RelaxAllConcat(vs, sel, a, b[..|b| - 1]);
      assert (a + b)[..|a + b| - 1] == a + b[..|b| - 1];
    }
  }

  /** The links of one advertisement; `ok` is false on the error return. */
  method RelaxLinks(vertices: array<Vertex>, n: nat, sel: nat, links: seq<Link>) returns (ok: bool)
    requires sel < n <= vertices.Length
    modifies vertices
    ensures ok <==> RelaxAll(old(vertices[..n]), sel, links).Some?
    ensures ok ==> vertices[..n] == RelaxAll(old(vertices[..n]), sel, links).value
  {
    ghost var vs := vertices[..n];
    for j := 0 to |links|
      invariant Some(vertices[..n]) == RelaxAll(vs, sel, links[..j])
    {
      assert links[..j + 1][..j] == links[..j];
      ok := RelaxLink(vertices, n, sel, links[j]);
      if !ok {
        RelaxAllConcat(vs, sel, links[..j + 1], links[j + 1..]);
        assert links[..j + 1] + links[j + 1..] == links;
        return;
      }
    }
    assert links[..|links|] == links;
    ok := true;
  }

  /** The relaxation loops over every advertisement of router `id`. */
  method RelaxLoop(vertices: array<Vertex>, n: nat, db: seq<Option<Lsa>>, sel: nat, id: u32) returns (ok: bool)
    requires sel < n <= vertices.Length
    modifies vertices
    ensures ok <==> RelaxAll(old(vertices[..n]), sel, OutLinks(db, id)).Some?
    ensures ok ==> vertices[..n] == RelaxAll(old(vertices[..n]), sel, OutLinks(db, id)).value
  {
    ghost var vs := vertices[..n];
    for i := 0 to |db|
      invariant Some(vertices[..n]) == RelaxAll(vs, sel, OutLinks(db[..i], id))
    {
      RelaxSlot(vs, sel, db, i, id);
      if !IsRouterLsa(db[i], id) { continue; }
      ok := RelaxLinks(vertices, n, sel, db[i].value.links);
      if !ok {
        RelaxFails(vs, sel, db, i + 1, id);
        return;
      }
    }
    assert db[..|db|] == db;
    ok := true;
  }

  /** One more slot of the database: its links are relaxed if it holds an advertisement of the router. */
  lemma RelaxSlot(vs: seq<Vertex>, sel: nat, db: seq<Option<Lsa>>, i: nat, id: u32)
    requires sel < |vs| && i < |db| && RelaxAll(vs, sel, OutLinks(db[..i], id)).Some?
    ensures RelaxAll(vs, sel, OutLinks(db[..i + 1], id)) ==
            if IsRouterLsa(db[i], id)
            then RelaxAll(RelaxAll(vs, sel, OutLinks(db[..i], id)).value, sel, db[i].value.links)
            else RelaxAll(vs, sel, OutLinks(db[..i], id))
  {
    assert db[..i + 1][..i] == db[..i];
    if IsRouterLsa(db[i], id) {
      RelaxAllConcat(vs, sel, OutLinks(db[..i], id), db[i].value.links);
    } else {
      assert OutLinks(db[..i + 1], id) == OutLinks(db[..i], id);
    }
  }

  lemma RelaxFails(vs: seq<Vertex>, sel: nat, db: seq<Option<Lsa>>, i: nat, id: u32)
    requires sel < |vs| && i <= |db| && RelaxAll(vs, sel, OutLinks(db[..i], id)).None?
    ensures RelaxAll(vs, sel, OutLinks(db, id)).None?
  {
    OutLinksMonotone(db, i, id);
    var done, all := OutLinks(db[..i], id), OutLinks(db, id);
    RelaxAllConcat(vs, sel, done, all[|done|..]);
    assert done + all[|done|..] == all;
  }

  lemma {:induction false} OutLinksMonotone(db: seq<Option<Lsa>>, i: nat, id: u32)
    requires i <= |db|
    ensures OutLinks(db[..i], id) <= OutLinks(db, id)
    decreases |db|
  {
    if i < |db| {
      OutLinksMonotone(db[..|db| - 1], i, id);
      assert db[..|db| - 1][..i] == db[..i];
    } else {
      assert db[..i] == db;
    }
  }

  /** The edges a round relaxes really are edges of the graph. */
  lemma OutLinksEdges(db: seq<Option<Lsa>>, id: u32)
    ensures forall k :: 0 <= k < |OutLinks(db, id)| && OutLinks(db, id)[k].kind == LINK_P2P ==>
              IsEdge(db, Edge(id, OutLinks(db, id)[k].linkId, OutLinks(db, id)[k].metric))
  {
    var links := OutLinks(db, id);
    forall k | 0 <= k < |links| && links[k].kind == LINK_P2P
      ensures IsEdge(db, Edge(id, links[k].linkId, links[k].metric))
    {
      OutLinksAreEdges(db, id, links[k].linkId, links[k].metric);
      assert LinkIs(OutLinks(db, id)[k], links[k].linkId, links[k].metric);
    }
  }

  /** One round: visit `sel` and relax all its links; None is the error return of the source. */
  function Round(db: seq<Option<Lsa>>, vs: seq<Vertex>, sel: nat): Option<seq<Vertex>>
    requires sel < |vs|
  {
    RelaxAll(Visit(vs, sel), sel, OutLinks(db, vs[sel].routerId))
  }

  /** A round from a sound state succeeds and leaves a sound state. */
  lemma RoundSound(db: seq<Option<Lsa>>, root: u32, vs: seq<Vertex>, c: nat, sel: nat)
    requires Inv(db, root, vs, c) && c < 0xFFFF && IsNearest(vs, sel) && (vs[0].visited || sel == 0)
    ensures Round(db, vs, sel).Some? && Inv(db, root, Round(db, vs, sel).value, c + 1)
  {
    var links := OutLinks(db, vs[sel].routerId);
    var vs' := Visit(vs, sel);
    OutLinksEdges(db, vs[sel].routerId);
    VisitKeeps(db, root, vs, c, sel);
    RelaxAllKeeps(db, root, vs', c + 1, sel, links);
    RoundKeeps(db, root, RelaxAll(vs', sel, links).value, c + 1, sel);
  }

  lemma {:induction false} RelaxAllFrame(vs: seq<Vertex>, sel: nat, links: seq<Link>)
    requires sel < |vs| && RelaxAll(vs, sel, links).Some?
    ensures SameFrame(vs, RelaxAll(vs, sel, links).value)
  {
    if links != [] { RelaxAllFrame(vs, sel, links[..|links| - 1]); }
  }

  /** A round visits exactly the selected vertex. */
  lemma RoundCounts(db: seq<Option<Lsa>>, vs: seq<Vertex>, sel: nat, vs': seq<Vertex>)
    requires sel < |vs| && !vs[sel].visited && Round(db, vs, sel) == Some(vs')
    ensures |vs'| == |vs| && vs'[sel].visited && CountVisited(vs') == CountVisited(vs) + 1
    ensures vs[0].visited ==> vs'[0].visited
  {
    RelaxAllFrame(Visit(vs, sel), sel, OutLinks(db, vs[sel].routerId));
    CountSame(Visit(vs, sel), vs');
    CountUpdate(vs, IsVisited, sel, vs[sel].(visited := true));
  }

  lemma {:induction false} CountSame(a: seq<Vertex>, b: seq<Vertex>)
    requires SameFrame(a, b)
    ensures CountVisited(b) == CountVisited(a)
  {
    if a != [] { CountSame(a[..|a| - 1], b[..|b| - 1]); }
  }

  /** The Dijkstra iteration as a function: rounds until no vertex can be selected. */
  function SpfFrom(db: seq<Option<Lsa>>, vs: seq<Vertex>): Option<seq<Vertex>>
    decreases |vs| - CountVisited(vs)
  {
    var sel := Nearest(vs);
    if sel < 0 then Some(vs)
    else
      var round := Round(db, vs, sel);
      if round.None? then None
      else
        RoundCounts(db, vs, sel, round.value);
        SpfFrom(db, round.value)
  }

  /** The root is the only vertex that can be selected first. */
  ghost predicate RootFirst(vs: seq<Vertex>) {
    vs != [] && (vs[0].visited || forall i :: 0 < i < |vs| ==> vs[i].distance == INFINITY)
  }

  /** What holds between two rounds. */
  ghost predicate Sound(db: seq<Option<Lsa>>, root: u32, vs: seq<Vertex>) {
    Inv(db, root, vs, CountVisited(vs)) && RootFirst(vs) && |vs| <= 0xFFFF
  }

  lemma RoundStaysSound(db: seq<Option<Lsa>>, root: u32, vs: seq<Vertex>, sel: nat)
    requires Sound(db, root, vs) && sel == Nearest(vs)
    ensures Round(db, vs, sel).Some? && Sound(db, root, Round(db, vs, sel).value)
    ensures CountVisited(Round(db, vs, sel).value) == CountVisited(vs) + 1 <= |vs|
  {
    assert CountVisited(vs) < |vs|;
    RoundSound(db, root, vs, CountVisited(vs), sel);
    RoundCounts(db, vs, sel, Round(db, vs, sel).value);
  }

  /** The iteration takes no error return and ends in a sound state with nothing reachable left unvisited. */
  lemma {:induction false} SpfFromSound(db: seq<Option<Lsa>>, root: u32, vs: seq<Vertex>)
    requires Sound(db, root, vs)
    ensures var r := SpfFrom(db, vs);
            r.Some? && |r.value| == |vs| && Exhausted(r.value) && Sound(db, root, r.value)
    decreases |vs| - CountVisited(vs)
  {
    var sel := Nearest(vs);
    if sel >= 0 {
      RoundStaysSound(db, root, vs, sel);
      SpfFromSound(db, root, Round(db, vs, sel).value);
    }
  }

  lemma CollectSound(db: seq<Option<Lsa>>, root: u32)
    requires WellFormedDb(db) && |db| <= LSDB_SIZE
    ensures Sound(db, root, Collect(db, root))
  {
    CollectCovers(db, root);
    FreshInv(db, root, Collect(db, root));
    CountNone(Collect(db, root), IsVisited);
  }

  /** The tree the source computes, as a function of the database and the root. */
  function Tree(db: seq<Option<Lsa>>, root: u32): (vs: seq<Vertex>)
    requires WellFormedDb(db) && |db| <= LSDB_SIZE
    ensures SpfFrom(db, Collect(db, root)) == Some(vs) && |vs| <= MaxNodes(LSDB_SIZE)
    ensures IsShortestPathTree(db, root, vs) && Covers(db, vs) && HopsInRange(vs)
    ensures forall i :: 0 <= i < |vs| && vs[i].distance < INFINITY ==> vs[i].distance <= 1280 * 0xFFFF
  {
    CollectSound(db, root);
    SpfFromSound(db, root, Collect(db, root));
    var vs := SpfFrom(db, Collect(db, root)).value;
    FinishedIsTree(db, root, vs, CountVisited(vs));
    FinishedBound(vs, CountVisited(vs));
    TreeHops(db, root, vs);
    vs
  }

  ghost predicate HopsInRange(vs: seq<Vertex>) {
    forall i :: 0 < i < |vs| && vs[i].distance < INFINITY ==> 0 <= vs[i].firstHop < |vs|
  }

  lemma TreeHops(db: seq<Option<Lsa>>, root: u32, vs: seq<Vertex>)
    requires IsShortestPathTree(db, root, vs)
    ensures HopsInRange(vs)
  {
    forall i | 0 < i < |vs| && vs[i].distance < INFINITY ensures 0 <= vs[i].firstHop < |vs| {
      assert HopRight(db, root, vs, i);
    }
  }

  /** One round on the array: mark the selected vertex and relax its links. */
  method RoundLoop(vertices: array<Vertex>, n: nat, db: seq<Option<Lsa>>, sel: nat) returns (ok: bool)
    requires sel < n <= vertices.Length
    modifies vertices
    ensures ok <==> Round(db, old(vertices[..n]), sel).Some?
    ensures ok ==> vertices[..n] == Round(db, old(vertices[..n]), sel).value
  {
    ghost var vs := vertices[..n];
    vertices[sel] := vertices[sel].(visited := true);
    assert vertices[..n] == Visit(vs, sel);
    ok := RelaxLoop(vertices, n, db, sel, vertices[sel].routerId);
  }

  /** The Dijkstra iteration on the array; `ok` is false on an error return. */
  method DijkstraLoop(vertices: array<Vertex>, n: nat, db: seq<Option<Lsa>>) returns (ok: bool)
    requires n <= vertices.Length
    modifies vertices
    ensures ok <==> SpfFrom(db, old(vertices[..n])).Some?
    ensures ok ==> vertices[..n] == SpfFrom(db, old(vertices[..n])).value
  {
    while true
      invariant SpfFrom(db, vertices[..n]) == SpfFrom(db, old(vertices[..n]))
      decreases n - CountVisited(vertices[..n])
    {
      ghost var vs := vertices[..n];
      var sel := SelectLoop(vertices, n);
      if sel == -1 { return true; }
      ok := RoundLoop(vertices, n, db, sel);
      if !ok { return; }
      RoundCounts(db, vs, sel, vertices[..n]);
    }
  }

  /** The first part of `ospf_run_spf`: never takes an error return and yields the tree. */
  method ComputeSpf(db: seq<Option<Lsa>>, root: u32) returns (r: Option<seq<Vertex>>)
    requires WellFormedDb(db) && |db| <= LSDB_SIZE
    ensures r == Some(Tree(db, root))
  {
    var vertices := new Vertex[MaxNodes(|db|)](_ => Vertex(0, 0, -1, -1, false));
    var ok, n := CollectLoop(vertices, db, root);
    ok := DijkstraLoop(vertices, n, db);
    assert SpfFrom(db, Collect(db, root)) == Some(Tree(db, root));
    if !ok { assert false; return None; }
    return Some(vertices[..n]);
  }

  lemma FinishedBound(vs: seq<Vertex>, c: nat)
    requires Bounded(vs, c) && Exhausted(vs) && c <= 1281
    ensures forall i :: 0 <= i < |vs| && vs[i].distance < INFINITY ==> vs[i].distance <= 1280 * 0xFFFF
  {
  }
}
