/** The routing information base, the forwarding index built from it, and longest-prefix lookup. */
module RouteTables {
  import opened NetTypes
  import opened Slots
  import opened Prefix

  const STATIC: byte := 1
  const DIRECT: byte := 2
  const RIP: byte := 3
  const OSPF: byte := 4
  const BGP: byte := 5
  const ISIS: byte := 6

  const RIB_SIZE: nat := 256

  datatype RibEntry = RibEntry(valid: bool, prefix: u32, len: nat, proto: byte,
                               nextHop: u32, iface: Iface, metric: u32, sequence: u32)

  datatype FibEntry = FibEntry(valid: bool, prefix: u32, len: nat, proto: byte,
                               nextHop: u32, iface: Iface, metric: u32, ribIndex: nat)

  const EMPTY_RIB := RibEntry(false, 0, 0, 0, 0, NoIface, 0, 0)
  const EMPTY_FIB := FibEntry(false, 0, 0, 0, 0, NoIface, 0, 0)

  /** `route_admin_distance`. */
  function AdminDistance(proto: byte): nat {
    if proto == DIRECT then 0
    else if proto == STATIC then 1
    else if proto == BGP then 20
    else if proto == OSPF then 110
    else if proto == ISIS then 115
    else if proto == RIP then 120
    else 255
  }

  /** `a` displaces `b`: strictly smaller in (administrative distance, metric, insertion sequence). */
  predicate Better(a: RibEntry, b: RibEntry) {
    var da, db := AdminDistance(a.proto), AdminDistance(b.proto);
    da < db || (da == db && (a.metric < b.metric || (a.metric == b.metric && a.sequence < b.sequence)))
  }

  /** What the order is for: `a` has the smaller administrative distance, at equal distance the smaller metric, and at
      equal metric too was inserted no later. */
  predicate NoWorse(a: RibEntry, b: RibEntry) {
    && AdminDistance(a.proto) <= AdminDistance(b.proto)
    && (AdminDistance(a.proto) == AdminDistance(b.proto) ==>
          && a.metric <= b.metric
          && (a.metric == b.metric ==> a.sequence <= b.sequence))
  }

  predicate Serves(e: RibEntry, prefix: u32, len: nat) {
    e.valid && e.prefix == prefix && e.len == len
  }

  predicate HasKey(e: RibEntry, prefix: u32, len: nat, proto: byte) {
    Serves(e, prefix, len) && e.proto == proto
  }

  /** The RIB slot that should be installed for one network: the first of the best entries, or -1. */
  function Winner(rib: seq<RibEntry>, prefix: u32, len: nat): (w: int)
    ensures -1 <= w < |rib|
    ensures w >= 0 ==> Serves(rib[w], prefix, len)
  {
    if rib == [] then -1
    else
      var n := |rib| - 1;
      var w := Winner(rib[..n], prefix, len);
      if Serves(rib[n], prefix, len) && (w < 0 || Better(rib[n], rib[w])) then n else w
  }

  /** The forwarding entry copied from RIB slot `i`. */
  function Installed(e: RibEntry, i: nat): FibEntry {
    FibEntry(true, e.prefix, e.len, e.proto, e.nextHop, e.iface, e.metric, i)
  }

  /** What lookup should find: the winner of the longest network that holds the destination, or -1. */
  function BestFrom(rib: seq<RibEntry>, dst: u32, len: nat): (w: int)
    ensures -1 <= w < |rib|
  {
    var w := Winner(rib, Masked(dst, len), len);
    if w >= 0 then w else if len == 0 then -1 else BestFrom(rib, dst, len - 1)
  }

  function LookupSpec(rib: seq<RibEntry>, dst: u32): Option<FibEntry> {
    var w := BestFrom(rib, dst, 32);
    if w < 0 then None else Some(Installed(rib[w], w))
  }

  /** Slot `i` is a right answer for `dst`: valid, matching, longest, and beaten by no other entry of its length. */
  ghost predicate IsBest(rib: seq<RibEntry>, dst: u32, i: int) {
    && 0 <= i < |rib| && rib[i].valid && Matches(dst, rib[i].prefix, rib[i].len)
    && forall k :: 0 <= k < |rib| && rib[k].valid && Matches(dst, rib[k].prefix, rib[k].len) ==>
         rib[k].len < rib[i].len || (rib[k].len == rib[i].len && NoWorse(rib[i], rib[k]))
  }

  lemma {:induction false} WinnerIsBest(rib: seq<RibEntry>, prefix: u32, len: nat)
    ensures var w := Winner(rib, prefix, len);
            forall k :: 0 <= k < |rib| && Serves(rib[k], prefix, len) ==> w >= 0 && NoWorse(rib[w], rib[k])
  {
    if rib != [] {
      var front := rib[..|rib| - 1];
      WinnerIsBest(front, prefix, len);
      assert forall k :: 0 <= k < |front| ==> front[k] == rib[k];
    }
  }

  lemma {:induction false} BestFromCovers(rib: seq<RibEntry>, dst: u32, len: nat)
    ensures var w := BestFrom(rib, dst, len);
            && (w >= 0 ==> rib[w].valid && Matches(dst, rib[w].prefix, rib[w].len) && rib[w].len <= len)
            && forall k :: 0 <= k < |rib| && rib[k].valid && rib[k].len <= len &&
                           Matches(dst, rib[k].prefix, rib[k].len) ==>
                 w >= 0 && (rib[k].len < rib[w].len || (rib[k].len == rib[w].len && NoWorse(rib[w], rib[k])))
  {
    WinnerIsBest(rib, Masked(dst, len), len);
    if Winner(rib, Masked(dst, len), len) < 0 && len > 0 { BestFromCovers(rib, dst, len - 1); }
    forall k | 0 <= k < |rib| && rib[k].valid && rib[k].len == len && Matches(dst, rib[k].prefix, len)
      ensures Serves(rib[k], Masked(dst, len), len) {
    }
  }

  /** Lookup is longest-prefix match with best-route selection: it finds an answer exactly when one exists. */
  lemma LookupFindsBest(rib: seq<RibEntry>, dst: u32)
    requires WellFormed(rib)
    ensures BestFrom(rib, dst, 32) >= 0 ==> IsBest(rib, dst, BestFrom(rib, dst, 32))
    ensures LookupSpec(rib, dst) == None <==>
            forall k :: 0 <= k < |rib| && rib[k].valid ==> !Matches(dst, rib[k].prefix, rib[k].len)
  {
    BestFromCovers(rib, dst, 32);
  }

  /** The RIB invariant: normalized networks, real protocols and interfaces, one entry per key. */
  ghost predicate WellFormed(rib: seq<RibEntry>) {
    && (forall i :: 0 <= i < |rib| ==> EntryWellFormed(rib[i]))
    && (forall i, j :: 0 <= i < j < |rib| && rib[i].valid ==> !HasKey(rib[j], rib[i].prefix, rib[i].len, rib[i].proto))
  }

  ghost predicate EntryWellFormed(e: RibEntry) {
    if e.valid then e.len <= 32 && Masked(e.prefix, e.len) == e.prefix && e.proto != 0 && e.iface != NoIface
    else e.iface == NoIface
  }

  /** The forwarding table is the canonical index of the RIB entries seen so far. */
  ghost predicate FibOf(rib: seq<RibEntry>, fib: seq<FibEntry>, n: nat, selected: seq<bool>) {
    && n <= |fib| && n <= |rib| <= |selected|
    && (forall j :: 0 <= j < |fib| ==> (fib[j].valid <==> j < n))
    && (forall j :: 0 <= j < n ==> Current(rib, fib[j]))
    && (forall j, k :: 0 <= j < k < n ==> !SameNet(fib[j], fib[k].prefix, fib[k].len))
    && (forall i :: 0 <= i < |rib| && rib[i].valid ==> Indexed(fib, n, rib[i].prefix, rib[i].len))
    && (forall i :: 0 <= i < |rib| ==>
          (selected[i] <==> rib[i].valid && Winner(rib, rib[i].prefix, rib[i].len) == i))
    && (forall i :: |rib| <= i < |selected| ==> !selected[i])
  }

  predicate SameNet(f: FibEntry, prefix: u32, len: nat) {
    f.prefix == prefix && f.len == len
  }

  ghost predicate Current(rib: seq<RibEntry>, f: FibEntry) {
    f.ribIndex == Winner(rib, f.prefix, f.len) && f == Installed(rib[f.ribIndex], f.ribIndex)
  }

  ghost predicate Indexed(fib: seq<FibEntry>, n: nat, prefix: u32, len: nat)
    requires n <= |fib|
  {
    exists j :: 0 <= j < n && SameNet(fib[j], prefix, len)
  }

  lemma WinnerSnoc(rib: seq<RibEntry>, e: RibEntry, prefix: u32, len: nat)
    ensures var w := Winner(rib, prefix, len);
            Winner(rib + [e], prefix, len) ==
            if Serves(e, prefix, len) && (w < 0 || Better(e, rib[w])) then |rib| else w
  {
    assert (rib + [e])[..|rib|] == rib;
  }

  /** Rebuild step for an unused slot, or for an entry that does not displace the installed one. */
  lemma FibSkips(rib: seq<RibEntry>, e: RibEntry, fib: seq<FibEntry>, n: nat, selected: seq<bool>)
    requires FibOf(rib, fib, n, selected) && |rib| < |selected|
    requires e.valid ==> Indexed(fib, n, e.prefix, e.len) && !Better(e, rib[Winner(rib, e.prefix, e.len)])
    requires e.valid ==> Winner(rib, e.prefix, e.len) >= 0
    ensures FibOf(rib + [e], fib, n, selected)
  {
    forall p: u32, l: nat ensures Winner(rib + [e], p, l) == Winner(rib, p, l) {
      WinnerSnoc(rib, e, p, l);
    }
  }

  /** Rebuild step for an entry that displaces the one installed in slot `j`. */
  lemma FibReplaces(rib: seq<RibEntry>, e: RibEntry, fib: seq<FibEntry>, n: nat, selected: seq<bool>, j: nat)
    requires FibOf(rib, fib, n, selected) && |rib| < |selected|
    requires e.valid && j < n && SameNet(fib[j], e.prefix, e.len) && Better(e, rib[fib[j].ribIndex])
    ensures FibOf(rib + [e], fib[j := Installed(e, |rib|)], n,
                  selected[fib[j].ribIndex := false][|rib| := true])
  {
    var fib', sel' := fib[j := Installed(e, |rib|)], selected[fib[j].ribIndex := false][|rib| := true];
    assert Current(rib, fib[j]);
    forall p: u32, l: nat
      ensures Winner(rib + [e], p, l) == if SameNet(fib[j], p, l) then |rib| else Winner(rib, p, l)
    {
      WinnerSnoc(rib, e, p, l);
    }
    forall k | 0 <= k < n ensures Current(rib + [e], fib'[k]) {
      assert Current(rib, fib[k]);
      if k != j { assert !SameNet(fib[j], fib[k].prefix, fib[k].len); }
    }
    forall i | 0 <= i < |rib + [e]| && (rib + [e])[i].valid
      ensures Indexed(fib', n, (rib + [e])[i].prefix, (rib + [e])[i].len)
    {
      if i < |rib| {
        assert Indexed(fib, n, rib[i].prefix, rib[i].len);
        var k :| 0 <= k < n && SameNet(fib[k], rib[i].prefix, rib[i].len);
        assert SameNet(fib'[k], rib[i].prefix, rib[i].len);
      } else {
        assert SameNet(fib'[j], e.prefix, e.len);
      }
    }
  }

  /** Rebuild step for the first entry of a network: it takes the first free slot, which always exists. */
  lemma FibAppends(rib: seq<RibEntry>, e: RibEntry, fib: seq<FibEntry>, n: nat, selected: seq<bool>)
    requires FibOf(rib, fib, n, selected) && |rib| < |selected| && n < |fib|
    requires e.valid && !Indexed(fib, n, e.prefix, e.len)
    ensures FibOf(rib + [e], fib[n := Installed(e, |rib|)], n + 1, selected[|rib| := true])
  {
    var fib' := fib[n := Installed(e, |rib|)];
    assert Winner(rib, e.prefix, e.len) < 0;
    forall p: u32, l: nat
      ensures Winner(rib + [e], p, l) == if Serves(e, p, l) then |rib| else Winner(rib, p, l)
    {
      WinnerSnoc(rib, e, p, l);
    }
    forall k | 0 <= k < n + 1 ensures Current(rib + [e], fib'[k]) {
      if k < n { assert Current(rib, fib[k]) && !SameNet(fib[k], e.prefix, e.len); }
    }
    forall i | 0 <= i < |rib + [e]| && (rib + [e])[i].valid
      ensures Indexed(fib', n + 1, (rib + [e])[i].prefix, (rib + [e])[i].len)
    {
      if i < |rib| {
        assert Indexed(fib, n, rib[i].prefix, rib[i].len);
        var k :| 0 <= k < n && SameNet(fib[k], rib[i].prefix, rib[i].len);
        assert SameNet(fib'[k], rib[i].prefix, rib[i].len);
      } else {
        assert SameNet(fib'[n], e.prefix, e.len);
      }
    }
  }

  /** A RIB entry is marked selected exactly when some forwarding slot points at it. */
  lemma SelectedIsPointedAt(rib: seq<RibEntry>, fib: seq<FibEntry>, n: nat, selected: seq<bool>, i: nat)
    requires FibOf(rib, fib, n, selected) && i < |rib|
    ensures selected[i] <==> exists j :: 0 <= j < n && fib[j].ribIndex == i
  {
    if selected[i] {
      assert Indexed(fib, n, rib[i].prefix, rib[i].len);
      var j :| 0 <= j < n && SameNet(fib[j], rib[i].prefix, rib[i].len);
      assert Current(rib, fib[j]);
    } else {
      forall j | 0 <= j < n ensures fib[j].ribIndex != i {
        assert Current(rib, fib[j]);
      }
    }
  }

  datatype RouteKey = RouteKey(prefix: u32, len: nat, proto: byte)
  datatype Route = Route(nextHop: u32, iface: Iface, metric: u32, sequence: u32)

  predicate Holds(e: RibEntry, key: RouteKey) {
    HasKey(e, key.prefix, key.len, key.proto)
  }

  /** The first slot that holds a key, or -1. */
  function KeySlot(rib: seq<RibEntry>, key: RouteKey): (i: int)
    ensures -1 <= i < |rib|
    ensures i >= 0 ==> Holds(rib[i], key)
    ensures forall k :: 0 <= k < (if i < 0 then |rib| else i) ==> !Holds(rib[k], key)
  {
    First(rib, (e: RibEntry) => Holds(e, key))
  }

  /** The first unused slot, or -1 when the RIB is full. */
  function FreeSlot(rib: seq<RibEntry>): (i: int)
    ensures -1 <= i < |rib|
    ensures i >= 0 ==> !rib[i].valid
    ensures forall k :: 0 <= k < (if i < 0 then |rib| else i) ==> rib[k].valid
  {
    First(rib, (e: RibEntry) => !e.valid)
  }

  predicate InUse(e: RibEntry) {
    e.valid
  }

  function CountValid(rib: seq<RibEntry>): nat {
    Count(rib, InUse)
  }

  /** The RIB as a partial map: what is stored under a key. */
  function RouteAt(rib: seq<RibEntry>, key: RouteKey): Option<Route> {
    var i := KeySlot(rib, key);
    if i < 0 then None else Some(Route(rib[i].nextHop, rib[i].iface, rib[i].metric, rib[i].sequence))
  }

  datatype Hop = Hop(nextHop: u32, iface: Iface, metric: u32)

  /** A stored route without its insertion number. */
  function HopAt(rib: seq<RibEntry>, key: RouteKey): Option<Hop> {
    var r := RouteAt(rib, key);
    if r.None? then None else Some(Hop(r.value.nextHop, r.value.iface, r.value.metric))
  }

  /** `route_table_add` on accepted arguments: refresh the entry of the key, or take the first free slot. */
  function AddRib(rib: seq<RibEntry>, seqNo: u32, key: RouteKey, nextHop: u32, iface: Iface,
                  metric: u32): Option<seq<RibEntry>> {
    var i := KeySlot(rib, key);
    if i >= 0 then Some(rib[i := rib[i].(nextHop := nextHop, iface := iface, metric := metric)])
    else
      var j := FreeSlot(rib);
      if j >= 0 then Some(rib[j := RibEntry(true, key.prefix, key.len, key.proto, nextHop, iface, metric, seqNo)])
      else None
  }

  /** `next_sequence++` on a 32-bit counter. */
  function Succ(x: u32): u32 {
    if x == 0xFFFF_FFFF then 0 else x + 1
  }

  /** The sequence counter after an add: one more exactly when the add took a free slot. */
  function NextSequence(rib: seq<RibEntry>, seqNo: u32, key: RouteKey): u32 {
    if KeySlot(rib, key) < 0 && FreeSlot(rib) >= 0 then Succ(seqNo) else seqNo
  }

  function Cleared(e: RibEntry): RibEntry {
    e.(valid := false, iface := NoIface)
  }

  /** `route_table_delete` on accepted arguments. */
  function DeleteRib(rib: seq<RibEntry>, key: RouteKey): Option<seq<RibEntry>> {
    var i := KeySlot(rib, key);
    if i >= 0 then Some(rib[i := Cleared(rib[i])]) else None
  }

  /** `route_table_flush_proto`. */
  function FlushRib(rib: seq<RibEntry>, proto: byte): (r: seq<RibEntry>)
    ensures |r| == |rib|
    ensures forall i :: 0 <= i < |rib| ==>
              r[i] == if rib[i].valid && rib[i].proto == proto then Cleared(rib[i]) else rib[i]
  {
    if rib == [] then []
    else
      var e := rib[|rib| - 1];
      FlushRib(rib[..|rib| - 1], proto) + [if e.valid && e.proto == proto then Cleared(e) else e]
  }

  ghost predicate GoodKey(key: RouteKey) {
    key.len <= 32 && key.proto != 0 && Masked(key.prefix, key.len) == key.prefix
  }

  /** In a well-formed RIB any slot that holds a key is the slot of the key. */
  lemma KeySlotUnique(rib: seq<RibEntry>, key: RouteKey, i: nat)
    requires WellFormed(rib) && i < |rib| && Holds(rib[i], key)
    ensures KeySlot(rib, key) == i
  {
  }

  /** What is stored under a key is what some slot holds for that network and protocol. */
  lemma RouteAtIff(rib: seq<RibEntry>, key: RouteKey, route: Route)
    requires WellFormed(rib)
    ensures RouteAt(rib, key) == Some(route) <==>
            exists i :: 0 <= i < |rib| && rib[i].valid && rib[i].prefix == key.prefix && rib[i].len == key.len &&
                        rib[i].proto == key.proto && rib[i].nextHop == route.nextHop && rib[i].iface == route.iface &&
                        rib[i].metric == route.metric && rib[i].sequence == route.sequence
  {
    if i :| 0 <= i < |rib| && rib[i].valid && rib[i].prefix == key.prefix && rib[i].len == key.len &&
            rib[i].proto == key.proto && rib[i].nextHop == route.nextHop && rib[i].iface == route.iface &&
            rib[i].metric == route.metric && rib[i].sequence == route.sequence {
      KeySlotUnique(rib, key, i);
    }
  }

  /** And without the insertion number. */
  lemma HopAtIff(rib: seq<RibEntry>, key: RouteKey, hop: Hop)
    requires WellFormed(rib)
    ensures HopAt(rib, key) == Some(hop) <==>
            exists i :: 0 <= i < |rib| && rib[i].valid && rib[i].prefix == key.prefix && rib[i].len == key.len &&
                        rib[i].proto == key.proto && rib[i].nextHop == hop.nextHop && rib[i].iface == hop.iface &&
                        rib[i].metric == hop.metric
  {
    if i :| 0 <= i < |rib| && rib[i].valid && rib[i].prefix == key.prefix && rib[i].len == key.len &&
            rib[i].proto == key.proto && rib[i].nextHop == hop.nextHop && rib[i].iface == hop.iface &&
            rib[i].metric == hop.metric {
      KeySlotUnique(rib, key, i);
    }
  }

  /** Changing one slot changes the stored route of that slot's keys only. */
  lemma RouteAtUpdate(rib: seq<RibEntry>, i: nat, e: RibEntry, key: RouteKey)
    requires i < |rib| && WellFormed(rib) && WellFormed(rib[i := e])
    ensures Holds(e, key) ==> RouteAt(rib[i := e], key) == Some(Route(e.nextHop, e.iface, e.metric, e.sequence))
    ensures !Holds(e, key) && Holds(rib[i], key) ==> RouteAt(rib[i := e], key) == None
    ensures !Holds(e, key) && !Holds(rib[i], key) ==> RouteAt(rib[i := e], key) == RouteAt(rib, key)
  {
    var rib' := rib[i := e];
    if Holds(e, key) {
      KeySlotUnique(rib', key, i);
    } else if Holds(rib[i], key) {
      KeySlotUnique(rib, key, i);
      var k := KeySlot(rib', key);
      if k >= 0 { KeySlotUnique(rib, key, k); }
    } else {
      var k := KeySlot(rib, key);
      if k >= 0 { KeySlotUnique(rib', key, k); }
    }
  }

  /** Adding stores the route under its key, touches no other key, and fails exactly on a full RIB without the key. */
  lemma AddStores(rib: seq<RibEntry>, seqNo: u32, key: RouteKey, nextHop: u32, iface: Iface, metric: u32,
                  other: RouteKey)
    requires WellFormed(rib) && GoodKey(key) && iface != NoIface
    ensures var r := AddRib(rib, seqNo, key, nextHop, iface, metric);
            && (r.None? <==> RouteAt(rib, key) == None && FreeSlot(rib) < 0)
            && (r.Some? ==>
                  && |r.value| == |rib| && WellFormed(r.value)
                  && RouteAt(r.value, key) == Some(Route(nextHop, iface, metric,
                       if RouteAt(rib, key).Some? then RouteAt(rib, key).value.sequence else seqNo))
                  && (other != key ==> RouteAt(r.value, other) == RouteAt(rib, other)))
  {
    var r := AddRib(rib, seqNo, key, nextHop, iface, metric);
    if r.Some? {
      var i := if KeySlot(rib, key) >= 0 then KeySlot(rib, key) else FreeSlot(rib);
      assert r.value == rib[i := r.value[i]];
      RouteAtUpdate(rib, i, r.value[i], key);
      RouteAtUpdate(rib, i, r.value[i], other);
    }
  }

  /** Deleting removes the key, touches no other key, and fails exactly when the key is absent. */
  lemma DeleteRemoves(rib: seq<RibEntry>, key: RouteKey, other: RouteKey)
    requires WellFormed(rib)
    ensures var r := DeleteRib(rib, key);
            && (r.None? <==> RouteAt(rib, key) == None)
            && (r.Some? ==>
                  && |r.value| == |rib| && WellFormed(r.value) && FreeSlot(r.value) >= 0
                  && RouteAt(r.value, key) == None
                  && (other != key ==> RouteAt(r.value, other) == RouteAt(rib, other)))
  {
    var i := KeySlot(rib, key);
    if i >= 0 {
      RouteAtUpdate(rib, i, Cleared(rib[i]), key);
      RouteAtUpdate(rib, i, Cleared(rib[i]), other);
      assert !rib[i := Cleared(rib[i])][i].valid;
    }
  }

  /** Flushing removes every key of one protocol and touches no other. */
  lemma FlushRemoves(rib: seq<RibEntry>, proto: byte, key: RouteKey)
    requires WellFormed(rib)
    ensures WellFormed(FlushRib(rib, proto))
    ensures RouteAt(FlushRib(rib, proto), key) == if key.proto == proto then None else RouteAt(rib, key)
  {
    var r := FlushRib(rib, proto);
    assert WellFormed(r) by {
      forall i, j | 0 <= i < j < |r| && r[i].valid
        ensures !HasKey(r[j], r[i].prefix, r[i].len, r[i].proto) {
        assert !HasKey(rib[j], rib[i].prefix, rib[i].len, rib[i].proto);
      }
    }
    var k := KeySlot(rib, key);
    if key.proto != proto && k >= 0 { KeySlotUnique(r, key, k); }
  }

  /** Two RIBs that differ only in what unused slots hold. */
  ghost predicate SameRoutes(a: seq<RibEntry>, b: seq<RibEntry>) {
    |a| == |b| && forall i :: 0 <= i < |a| ==> a[i].valid == b[i].valid && (a[i].valid ==> a[i] == b[i])
  }

  lemma {:induction false} SameRoutesSameWinner(a: seq<RibEntry>, b: seq<RibEntry>, prefix: u32, len: nat)
    requires SameRoutes(a, b)
    ensures Winner(a, prefix, len) == Winner(b, prefix, len)
  {
    if a != [] { SameRoutesSameWinner(a[..|a| - 1], b[..|b| - 1], prefix, len); }
  }

  lemma {:induction false} SameRoutesSameBest(a: seq<RibEntry>, b: seq<RibEntry>, dst: u32, len: nat)
    requires SameRoutes(a, b)
    ensures BestFrom(a, dst, len) == BestFrom(b, dst, len)
  {
    SameRoutesSameWinner(a, b, Masked(dst, len), len);
    if len > 0 { SameRoutesSameBest(a, b, dst, len - 1); }
  }

  /** Adding a fresh key and deleting it again leaves the answer for every destination unchanged. */
  lemma AddThenDelete(rib: seq<RibEntry>, seqNo: u32, key: RouteKey, nextHop: u32, iface: Iface, metric: u32, dst: u32)
    requires WellFormed(rib) && GoodKey(key) && iface != NoIface && RouteAt(rib, key) == None
    requires AddRib(rib, seqNo, key, nextHop, iface, metric).Some?
    ensures var mid := AddRib(rib, seqNo, key, nextHop, iface, metric).value;
            DeleteRib(mid, key).Some? && LookupSpec(DeleteRib(mid, key).value, dst) == LookupSpec(rib, dst)
  {
    var mid := AddRib(rib, seqNo, key, nextHop, iface, metric).value;
    AddStores(rib, seqNo, key, nextHop, iface, metric, key);
    KeySlotUnique(mid, key, FreeSlot(rib));
    SameRoutesSameBest(rib, DeleteRib(mid, key).value, dst, 32);
    BestFromCovers(rib, dst, 32);
  }

  /** Any call on the table, with any arguments. */
  datatype RibOp =
    | OpAdd(prefix: u32, len: nat, nextHop: u32, iface: Iface, metric: u32, proto: byte)
    | OpDelete(prefix: u32, len: nat, proto: byte)
    | OpFlush(proto: byte)

  /** The RIB and the sequence counter after a call. */
  function ApplyOp(rib: seq<RibEntry>, seqNo: u32, op: RibOp): (seq<RibEntry>, u32) {
    match op
    case OpAdd(prefix, len, nextHop, iface, metric, proto) =>
      if iface == NoIface || len > 32 || proto == 0 then (rib, seqNo)
      else
        var key := RouteKey(Masked(prefix, len), len, proto);
        var r := AddRib(rib, seqNo, key, nextHop, iface, metric);
        (if r.Some? then r.value else rib, NextSequence(rib, seqNo, key))
    case OpDelete(prefix, len, proto) =>
      if len > 32 || proto == 0 then (rib, seqNo)
      else
        var r := DeleteRib(rib, RouteKey(Masked(prefix, len), len, proto));
        (if r.Some? then r.value else rib, seqNo)
    case OpFlush(proto) => (if proto == 0 then rib else FlushRib(rib, proto), seqNo)
  }

  /** Any call keeps the RIB well formed and leaves every key of another protocol alone. */
  lemma OpKeeps(rib: seq<RibEntry>, seqNo: u32, op: RibOp, key: RouteKey)
    requires WellFormed(rib)
    ensures var (rib', _) := ApplyOp(rib, seqNo, op);
            |rib'| == |rib| && WellFormed(rib') && (key.proto != op.proto ==> RouteAt(rib', key) == RouteAt(rib, key))
  {
    match op
    case OpAdd(prefix, len, nextHop, iface, metric, proto) =>
      if iface != NoIface && len <= 32 && proto != 0 {
        MaskedIdempotent(prefix, len);
        AddStores(rib, seqNo, RouteKey(Masked(prefix, len), len, proto), nextHop, iface, metric, key);
      }
    case OpDelete(prefix, len, proto) =>
      if len <= 32 && proto != 0 { DeleteRemoves(rib, RouteKey(Masked(prefix, len), len, proto), key); }
    case OpFlush(proto) =>
      FlushRemoves(rib, proto, key);
  }

  function ApplyOps(rib: seq<RibEntry>, seqNo: u32, ops: seq<RibOp>): (seq<RibEntry>, u32) {
    if ops == [] then (rib, seqNo)
    else
      var (rib', seqNo') := ApplyOps(rib, seqNo, ops[..|ops| - 1]);
      ApplyOp(rib', seqNo', ops[|ops| - 1])
  }

  /** After any history of calls on an empty table, lookup finds a best route exactly when some entry matches. */
  lemma {:induction false} LookupAfterAnyHistory(size: nat, ops: seq<RibOp>, dst: u32)
    ensures var (rib, _) := ApplyOps(seq(size, _ => EMPTY_RIB), 1, ops);
            && WellFormed(rib)
            && (BestFrom(rib, dst, 32) >= 0 ==> IsBest(rib, dst, BestFrom(rib, dst, 32)))
            && (LookupSpec(rib, dst) == None <==>
                  forall k :: 0 <= k < |rib| && rib[k].valid ==> !Matches(dst, rib[k].prefix, rib[k].len))
  {
    var (rib, _) := ApplyOps(seq(size, _ => EMPTY_RIB), 1, ops);
    if ops != [] {
      LookupAfterAnyHistory(size, ops[..|ops| - 1], dst);
      var (before, seqNo) := ApplyOps(seq(size, _ => EMPTY_RIB), 1, ops[..|ops| - 1]);
      OpKeeps(before, seqNo, ops[|ops| - 1], RouteKey(0, 0, 0));
    }
    LookupFindsBest(rib, dst);
  }

  /** `RouteTable`: RIB slots with their selected flags beside them, and the forwarding slots. */
  class RouteTable {
    const rib: array<RibEntry>
    const selected: array<bool>
    const fib: array<FibEntry>
    var ribCount: nat
    var fibCount: nat
    var nextSequence: u32

    ghost predicate Shaped()
      reads this
    {
      rib.Length == selected.Length <= fib.Length
    }

    ghost predicate Valid()
      reads this, rib, selected, fib
    {
      && Shaped() && WellFormed(rib[..]) && ribCount == CountValid(rib[..])
      && FibOf(rib[..], fib[..], fibCount, selected[..])
    }

    /** `route_table_init`, for any RIB size; the source uses RIB_SIZE for both tables. */
    constructor (size: nat)
      ensures Valid() && nextSequence == 1 && rib.Length == size
      ensures forall i :: 0 <= i < rib.Length ==> rib[i] == EMPTY_RIB
      ensures fresh(rib) && fresh(selected) && fresh(fib)
    {
      rib := new RibEntry[size](_ => EMPTY_RIB);
      selected := new bool[size](_ => false);
      fib := new FibEntry[size](_ => EMPTY_FIB);
      ribCount, fibCount, nextSequence := 0, 0, 1;
      new;
      CountNone(rib[..], InUse);
    }

    /** `route_table_rebuild_fib`: from any forwarding state to the canonical one; the RIB is only read. */
    method RebuildFib()
      requires Shaped() && forall i :: 0 <= i < rib.Length && !rib[i].valid ==> !selected[i]
      modifies this`fibCount, fib, selected
      ensures FibOf(rib[..], fib[..], fibCount, selected[..])
    {
      for i := 0 to fib.Length
        invariant forall j :: 0 <= j < i ==> fib[j] == EMPTY_FIB
        invariant forall j :: 0 <= j < rib.Length && !rib[j].valid ==> !selected[j]
      {
        fib[i] := EMPTY_FIB;
      }
      fibCount := 0;
      for i := 0 to rib.Length
        invariant fibCount == 0 && forall j :: 0 <= j < fib.Length ==> fib[j] == EMPTY_FIB
        invariant forall j :: 0 <= j < rib.Length && (j < i || !rib[j].valid) ==> !selected[j]
      {
        if rib[i].valid { selected[i] := false; }
      }
      for i := 0 to rib.Length
        invariant FibOf(rib[..i], fib[..], fibCount, selected[..])
      {
        Consider(i);
      }
      assert rib[..rib.Length] == rib[..];
    }

    /** One round of the rebuild: RIB slot `i` is installed, displaces the installed entry, or is passed over. */
    method Consider(i: nat)
      requires Shaped() && i < rib.Length && FibOf(rib[..i], fib[..], fibCount, selected[..])
      modifies this`fibCount, fib, selected
      ensures FibOf(rib[..i + 1], fib[..], fibCount, selected[..])
    {
      var e := rib[i];
      assert rib[..i + 1] == rib[..i] + [e];
      ghost var f, n, s := fib[..], fibCount, selected[..];
      if !e.valid {
        FibSkips(rib[..i], e, f, n, s);
        return;
      }
      var j := FindFib(e.prefix, e.len);
      if j < fib.Length {
        assert Current(rib[..i], f[j]);
        var current := fib[j].ribIndex;
        if Better(e, rib[current]) {
          FibReplaces(rib[..i], e, f, n, s, j);
          selected[current] := false;
          fib[j] := Installed(e, i);
          selected[i] := true;
          assert fib[..] == f[j := Installed(e, i)];
          assert selected[..] == s[current := false][i := true];
        } else {
          FibSkips(rib[..i], e, f, n, s);
        }
      } else {
        FibAppends(rib[..i], e, f, n, s);
        var k := 0;
        while fib[k].valid
          invariant 0 <= k <= fibCount
          decreases fibCount - k
        {
          k := k + 1;
        }
        fib[k] := Installed(e, i);
        selected[i] := true;
        fibCount := fibCount + 1;
        assert fib[..] == f[n := Installed(e, i)];
        assert selected[..] == s[i := true];
      }
    }

    /** The forwarding slot of a network, or one past the end. */
    method FindFib(prefix: u32, len: nat) returns (j: nat)
      ensures j <= fib.Length
      ensures j < fib.Length ==> fib[j].valid && SameNet(fib[j], prefix, len)
      ensures j == fib.Length ==> forall k :: 0 <= k < j ==> !(fib[k].valid && SameNet(fib[k], prefix, len))
    {
      j := 0;
      while j < fib.Length && !(fib[j].valid && SameNet(fib[j], prefix, len))
        invariant j <= fib.Length
        invariant forall k :: 0 <= k < j ==> !(fib[k].valid && SameNet(fib[k], prefix, len))
      {
        j := j + 1;
      }
    }

    /** `route_table_lookup`: the forwarding scan answers as a search of the RIB would. */
    method Lookup(dst: u32) returns (r: Option<FibEntry>)
      requires Valid()
      ensures r == LookupSpec(rib[..], dst)
    {
      r := None;
      for i := 0 to fib.Length
        invariant r == None ==> forall j :: 0 <= j < i && fib[j].valid ==> !Matches(dst, fib[j].prefix, fib[j].len)
        invariant r.Some? ==> exists j :: 0 <= j < i && fib[j] == r.value && fib[j].valid
        invariant r.Some? ==> r.value.len <= 32 && Matches(dst, r.value.prefix, r.value.len)
        invariant r.Some? ==> forall j :: 0 <= j < i && fib[j].valid && Matches(dst, fib[j].prefix, fib[j].len) ==>
                                fib[j].len <= r.value.len
      {
        assert fib[i].valid ==> Current(rib[..], fib[..][i]);
        if fib[i].valid && fib[i].len <= 32 && Matches(dst, fib[i].prefix, fib[i].len) {
          if r.None? || fib[i].len > r.value.len { r := Some(fib[i]); }
        }
      }
      ScanIsBest(rib[..], fib[..], fibCount, selected[..], dst, r);
    }

    /** `route_table_add`. */
    method Add(prefix: u32, len: byte, nextHop: u32, iface: Iface, metric: u32, proto: byte) returns (ok: bool)
      requires Valid()
      modifies this, rib, selected, fib
      ensures Valid()
      ensures iface == NoIface || len > 32 || proto == 0 ==>
                !ok && rib[..] == old(rib[..]) && nextSequence == old(nextSequence)
      ensures iface != NoIface && len <= 32 && proto != 0 ==>
                var key := RouteKey(Masked(prefix, len), len, proto);
                var r := AddRib(old(rib[..]), old(nextSequence), key, nextHop, iface, metric);
                && ok == r.Some?
                && rib[..] == (if ok then r.value else old(rib[..]))
                && nextSequence == NextSequence(old(rib[..]), old(nextSequence), key)
    {
      if iface == NoIface || len > 32 || proto == 0 { return false; }
      var key := RouteKey(Masked(prefix, len), len, proto);
      MaskedIdempotent(prefix, len);
      AddStores(rib[..], nextSequence, key, nextHop, iface, metric, key);
      var i := FindKey(key);
      if i >= 0 {
        Put(i, rib[i].(nextHop := nextHop, iface := iface, metric := metric));
        return true;
      }
      i := FindFree();
      if i < 0 { return false; }
      Put(i, RibEntry(true, key.prefix, len, proto, nextHop, iface, metric, nextSequence));
      nextSequence := Succ(nextSequence);
      ok := true;
    }

    method FindKey(key: RouteKey) returns (i: int)
      ensures i == KeySlot(rib[..], key)
    {
      i := 0;
      while i < rib.Length && !Holds(rib[i], key)
        invariant 0 <= i <= rib.Length && forall k :: 0 <= k < i ==> !Holds(rib[k], key)
      {
        i := i + 1;
      }
      assert i < rib.Length ==> Holds(rib[..][i], key);
      if i == rib.Length { i := -1; }
    }

    method FindFree() returns (i: int)
      ensures i == FreeSlot(rib[..])
    {
      i := 0;
      while i < rib.Length && rib[i].valid
        invariant 0 <= i <= rib.Length && forall k :: 0 <= k < i ==> rib[k].valid
      {
        i := i + 1;
      }
      assert i < rib.Length ==> !rib[..][i].valid;
      if i == rib.Length { i := -1; }
    }

    /** Writes one RIB slot and rebuilds; an entry that appears or disappears starts out unselected. */
    method Put(i: nat, e: RibEntry)
      requires Valid() && i < rib.Length && WellFormed(rib[..][i := e])
      modifies this`ribCount, this`fibCount, rib, selected, fib
      ensures Valid() && rib[..] == old(rib[..])[i := e]
    {
      if !rib[i].valid || !e.valid { selected[i] := false; }
      Store(i, e);
      RebuildFib();
    }

    /** Writes one RIB slot and keeps the entry count exact. */
    method Store(i: nat, e: RibEntry)
      requires i < rib.Length && ribCount == CountValid(rib[..])
      modifies this`ribCount, rib
      ensures rib[..] == old(rib[..])[i := e] && ribCount == CountValid(rib[..])
    {
      CountUpdate(rib[..], InUse, i, e);
      if !rib[i].valid && e.valid { ribCount := ribCount + 1; }
      if rib[i].valid && !e.valid && ribCount > 0 { ribCount := ribCount - 1; }
      assert CountValid(rib[..][i := e]) == ribCount;
      rib[i] := e;
      assert rib[..] == old(rib[..])[i := e];
    }

    /** `route_table_delete`. */
    method Delete(prefix: u32, len: byte, proto: byte) returns (ok: bool)
      requires Valid()
      modifies this`ribCount, this`fibCount, rib, selected, fib
      ensures Valid()
      ensures len > 32 || proto == 0 ==> !ok && rib[..] == old(rib[..])
      ensures len <= 32 && proto != 0 ==>
                var r := DeleteRib(old(rib[..]), RouteKey(Masked(prefix, len), len, proto));
                ok == r.Some? && rib[..] == if ok then r.value else old(rib[..])
    {
      if len > 32 || proto == 0 { return false; }
      var key := RouteKey(Masked(prefix, len), len, proto);
      DeleteRemoves(rib[..], key, key);
      var i := FindKey(key);
      if i < 0 { return false; }
      Put(i, Cleared(rib[i]));
      ok := true;
    }

    /** `route_table_flush_proto`. */
    method FlushProto(proto: byte) returns (invalidated: nat)
      requires Valid()
      modifies this`ribCount, this`fibCount, rib, selected, fib
      ensures Valid()
      ensures proto == 0 ==> invalidated == 0
      ensures rib[..] == (if proto == 0 then old(rib[..]) else FlushRib(old(rib[..]), proto))
      ensures ribCount == old(ribCount) - invalidated
    {
      if proto == 0 { return 0; }
      FlushRemoves(rib[..], proto, RouteKey(0, 0, 0));
      invalidated := ClearProto(proto);
      RebuildFib();
    }

    method ClearProto(proto: byte) returns (invalidated: nat)
      requires Shaped() && ribCount == CountValid(rib[..])
      requires forall i :: 0 <= i < rib.Length && !rib[i].valid ==> !selected[i]
      modifies this`ribCount, rib, selected
      ensures rib[..] == FlushRib(old(rib[..]), proto)
      ensures ribCount == CountValid(rib[..]) == old(ribCount) - invalidated
      ensures forall i :: 0 <= i < rib.Length && !rib[i].valid ==> !selected[i]
    {
      ghost var before := rib[..];
      invalidated := 0;
      for i := 0 to rib.Length
        invariant forall k :: 0 <= k < rib.Length ==>
                    rib[k] ==
                    if k < i && before[k].valid && before[k].proto == proto then Cleared(before[k]) else before[k]
        invariant forall k :: 0 <= k < rib.Length && !rib[k].valid ==> !selected[k]
        invariant ribCount == CountValid(rib[..]) && ribCount == old(ribCount) - invalidated
      {
        if rib[i].valid && rib[i].proto == proto {
          CountUpdate(rib[..], InUse, i, Cleared(rib[i]));
          Store(i, Cleared(rib[i]));
          selected[i] := false;
          invalidated := invalidated + 1;
        }
      }
      assert rib[..] == FlushRib(before, proto);
    }
  }

  /** The longest match among the forwarding slots is the winner of the longest matching network. */
  lemma ScanIsBest(rib: seq<RibEntry>, fib: seq<FibEntry>, n: nat, selected: seq<bool>, dst: u32, r: Option<FibEntry>)
    requires WellFormed(rib) && FibOf(rib, fib, n, selected)
    requires r == None ==> forall j :: 0 <= j < n ==> !Matches(dst, fib[j].prefix, fib[j].len)
    requires r.Some? ==> (exists j :: 0 <= j < n && fib[j] == r.value) && Matches(dst, r.value.prefix, r.value.len)
    requires r.Some? ==> forall j :: 0 <= j < n && Matches(dst, fib[j].prefix, fib[j].len) ==> fib[j].len <= r.value.len
    ensures r == LookupSpec(rib, dst)
  {
    BestFromCovers(rib, dst, 32);
    var w := BestFrom(rib, dst, 32);
    BestFromIsWinner(rib, dst, 32);
    if w >= 0 {
      assert Indexed(fib, n, rib[w].prefix, rib[w].len);
      var j :| 0 <= j < n && SameNet(fib[j], rib[w].prefix, rib[w].len);
      assert Current(rib, fib[j]);
    }
    if r.Some? {
      var k :| 0 <= k < n && fib[k] == r.value;
      assert Current(rib, fib[k]);
    }
  }

  lemma {:induction false} BestFromIsWinner(rib: seq<RibEntry>, dst: u32, len: nat)
    ensures var w := BestFrom(rib, dst, len); w >= 0 ==> Winner(rib, rib[w].prefix, rib[w].len) == w
  {
    if len > 0 { BestFromIsWinner(rib, dst, len - 1); }
  }
}
