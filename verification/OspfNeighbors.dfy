/** The OSPF neighbour table: hello reception and the dead-interval sweep. */
module OspfNeighbors {
  import opened NetTypes
  import opened Slots
  import opened OspfTypes

  const DEAD_INTERVAL: nat := 40_000_000

  predicate IsNeighbor(n: Neighbor, id: u32) {
    n.valid && n.routerId == id
  }

  /** The slot a hello from router `id` goes to: its own, else the first unused one, else -1. */
  function HelloSlot(nbrs: seq<Neighbor>, id: u32): (i: int)
    ensures -1 <= i < |nbrs|
    ensures i == -1 ==> forall k :: 0 <= k < |nbrs| ==> nbrs[k].valid && nbrs[k].routerId != id
    ensures i >= 0 && nbrs[i].valid ==> nbrs[i].routerId == id
    ensures i >= 0 && !nbrs[i].valid ==> forall k :: 0 <= k < |nbrs| ==> !IsNeighbor(nbrs[k], id)
  {
    var own := FirstOwn(nbrs, id);
    if own >= 0 then own else FirstSpare(nbrs)
  }

  function FirstOwn(nbrs: seq<Neighbor>, id: u32): (i: int)
    ensures -1 <= i < |nbrs| && (i >= 0 ==> IsNeighbor(nbrs[i], id))
    ensures forall k :: 0 <= k < (if i < 0 then |nbrs| else i) ==> !IsNeighbor(nbrs[k], id)
  {
    First(nbrs, (n: Neighbor) => IsNeighbor(n, id))
  }

  function FirstSpare(nbrs: seq<Neighbor>): (i: int)
    ensures -1 <= i < |nbrs| && (i >= 0 ==> !nbrs[i].valid)
    ensures forall k :: 0 <= k < (if i < 0 then |nbrs| else i) ==> nbrs[k].valid
  {
    First(nbrs, (n: Neighbor) => !n.valid)
  }

  /** What an accepted hello writes; `seen` says whether it listed the local router. */
  function Heard(id: u32, ip: u32, iface: Iface, seen: bool, now: nat): Neighbor {
    Neighbor(true, id, ip, if seen then Full else Init, now, iface)
  }

  /** The table part of hello reception; a full table drops the hello. */
  function ReceiveHello(nbrs: seq<Neighbor>, id: u32, ip: u32, iface: Iface, seen: bool, now: nat): (r: seq<Neighbor>)
    ensures |r| == |nbrs|
  {
    var i := HelloSlot(nbrs, id);
    if i < 0 then nbrs else nbrs[i := Heard(id, ip, iface, seen, now)]
  }

  predicate Silent(n: Neighbor, now: nat) {
    n.valid && n.state != Down && now >= n.lastHello && now - n.lastHello >= DEAD_INTERVAL
  }

  /** `ospf_dead_timer`: every neighbour silent for the dead interval goes down. */
  function DeadSweep(nbrs: seq<Neighbor>, now: nat): (r: seq<Neighbor>)
    ensures |r| == |nbrs|
    ensures forall i :: 0 <= i < |nbrs| ==> r[i] == if Silent(nbrs[i], now) then nbrs[i].(state := Down) else nbrs[i]
  {
    if nbrs == [] then []
    else
      var n := nbrs[|nbrs| - 1];
      DeadSweep(nbrs[..|nbrs| - 1], now) + [if Silent(n, now) then n.(state := Down) else n]
  }

  ghost predicate UniqueNeighbors(nbrs: seq<Neighbor>) {
    forall i, j :: 0 <= i < j < |nbrs| && nbrs[i].valid ==> !IsNeighbor(nbrs[j], nbrs[i].routerId)
  }

  /** No router ever occupies two slots. */
  lemma NeighborsStayUnique(nbrs: seq<Neighbor>, id: u32, ip: u32, iface: Iface, seen: bool, now: nat)
    requires UniqueNeighbors(nbrs)
    ensures UniqueNeighbors(ReceiveHello(nbrs, id, ip, iface, seen, now)) && UniqueNeighbors(DeadSweep(nbrs, now))
  {
    var r := ReceiveHello(nbrs, id, ip, iface, seen, now);
    forall i, j | 0 <= i < j < |r| && r[i].valid ensures !IsNeighbor(r[j], r[i].routerId) {
      assert nbrs[i].valid ==> !IsNeighbor(nbrs[j], nbrs[i].routerId);
    }
    var d := DeadSweep(nbrs, now);
    forall i, j | 0 <= i < j < |d| && d[i].valid ensures !IsNeighbor(d[j], d[i].routerId) {
      assert !IsNeighbor(nbrs[j], nbrs[i].routerId);
    }
  }

  /** Slot `k` holds router `id`, and no other slot does. */
  ghost predicate OnlyNeighbor(nbrs: seq<Neighbor>, id: u32, k: nat) {
    k < |nbrs| && forall i :: 0 <= i < |nbrs| ==> (nbrs[i].valid && nbrs[i].routerId == id <==> i == k)
  }

  /** A hello is taken exactly when its sender is known or a slot is left. Afterwards one slot holds the sender, with
      that address and interface, heard now, FULL exactly when the hello listed the local router and INIT otherwise;
      no other slot changes. */
  lemma HelloStored(nbrs: seq<Neighbor>, id: u32, ip: u32, iface: Iface, seen: bool, now: nat) returns (k: nat)
    requires UniqueNeighbors(nbrs)
    requires exists i :: 0 <= i < |nbrs| && (!nbrs[i].valid || nbrs[i].routerId == id)
    ensures HelloSlot(nbrs, id) == k
    ensures var r := ReceiveHello(nbrs, id, ip, iface, seen, now);
            && OnlyNeighbor(r, id, k)
            && r[k].ipAddr == ip && r[k].iface == iface && r[k].lastHello == now
            && (r[k].state == Full <==> seen) && (r[k].state == Init <==> !seen)
            && forall i :: 0 <= i < |nbrs| && i != k ==> r[i] == nbrs[i]
  {
    k := HelloSlot(nbrs, id);
    forall i | 0 <= i < |nbrs| && i != k ensures !(nbrs[i].valid && nbrs[i].routerId == id) {
      if IsNeighbor(nbrs[i], id) && nbrs[k].valid { OneSlotEach(nbrs, id, i, k); }
    }
  }

  lemma OneSlotEach(nbrs: seq<Neighbor>, id: u32, i: nat, k: nat)
    requires UniqueNeighbors(nbrs) && i < |nbrs| && k < |nbrs| && IsNeighbor(nbrs[i], id) && IsNeighbor(nbrs[k], id)
    ensures i == k
  {
  }

  /** With no slot left, a hello from a stranger changes nothing. */
  lemma HelloDropped(nbrs: seq<Neighbor>, id: u32, ip: u32, iface: Iface, seen: bool, now: nat)
    requires forall i :: 0 <= i < |nbrs| ==> nbrs[i].valid && nbrs[i].routerId != id
    ensures HelloSlot(nbrs, id) == -1 && ReceiveHello(nbrs, id, ip, iface, seen, now) == nbrs
  {
  }

  /** The sweep takes down exactly the neighbours that were up and last heard 40 s ago or earlier, and changes nothing
      else about them. */
  lemma SweepTakesDown(nbrs: seq<Neighbor>, now: nat, i: nat)
    requires i < |nbrs|
    ensures var n, n' := nbrs[i], DeadSweep(nbrs, now)[i];
            && n' == n.(state := n'.state)
            && (n'.state != n.state <==> n.valid && n.state != Down && n.lastHello + 40_000_000 <= now)
            && (n'.state != n.state ==> n'.state == Down)
  {
  }

  /** The neighbour search and update of `ospf_receive`, in place. */
  method HelloLoop(nbrs: array<Neighbor>, id: u32, ip: u32, iface: Iface, seen: bool, now: nat) returns (ok: bool)
    modifies nbrs
    ensures nbrs[..] == ReceiveHello(old(nbrs[..]), id, ip, iface, seen, now)
    ensures ok <==> HelloSlot(old(nbrs[..]), id) >= 0
  {
    var i := 0;
    while i < nbrs.Length && !IsNeighbor(nbrs[i], id)
      invariant 0 <= i <= nbrs.Length && forall k :: 0 <= k < i ==> !IsNeighbor(nbrs[k], id)
    {
      i := i + 1;
    }
    assert i < nbrs.Length ==> IsNeighbor(nbrs[..][i], id);
    if i == nbrs.Length {
      i := 0;
      while i < nbrs.Length && nbrs[i].valid
        invariant 0 <= i <= nbrs.Length && forall k :: 0 <= k < i ==> nbrs[k].valid
      {
        i := i + 1;
      }
      assert i < nbrs.Length ==> !nbrs[..][i].valid;
    }
    if i == nbrs.Length { return false; }
    assert HelloSlot(nbrs[..], id) == i;
    nbrs[i] := Heard(id, ip, iface, seen, now);
    assert nbrs[..] == old(nbrs[..])[i := Heard(id, ip, iface, seen, now)];
    ok := true;
  }

  /** The sweep of `ospf_dead_timer`, in place; `changed` asks for a new shortest-path run. */
  method DeadLoop(nbrs: array<Neighbor>, now: nat) returns (changed: bool)
    modifies nbrs
    ensures nbrs[..] == DeadSweep(old(nbrs[..]), now)
    ensures changed <==> nbrs[..] != old(nbrs[..])
  {
    changed := false;
    ghost var before := nbrs[..];
    for i := 0 to nbrs.Length
      invariant forall k :: 0 <= k < nbrs.Length ==>
                  nbrs[k] == if k < i && Silent(before[k], now) then before[k].(state := Down) else before[k]
      invariant changed <==> exists k :: 0 <= k < i && Silent(before[k], now)
    {
      if !nbrs[i].valid || nbrs[i].state == Down { continue; }
      if now < nbrs[i].lastHello { continue; }
      if now - nbrs[i].lastHello < DEAD_INTERVAL { continue; }
      assert Silent(before[i], now);
      nbrs[i] := nbrs[i].(state := Down);
      changed := true;
    }
    if changed {
      ghost var k :| 0 <= k < nbrs.Length && Silent(before[k], now);
      assert nbrs[..][k] != before[k];
    }
  }
}
