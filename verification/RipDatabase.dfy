/** The RIP route database and its agreement with the routing table. */
module RipDatabase {
  import opened NetTypes
  import opened Slots
  import opened Prefix
  import opened RouteTables

  const RIP_INFINITY: u32 := 16
  const AFI_IPV4: u16 := 2
  const TIMEOUT: nat := 180_000_000
  const GC: nat := 120_000_000

  datatype Phase = Active | Collecting

  /** `RipRouteInfo`. */
  datatype Info = Info(valid: bool, prefix: u32, len: nat, phase: Phase, metric: u32, nextHop: u32, learnedOn: Iface,
                       lastUpdate: nat)

  const EMPTY := Info(false, 0, 0, Active, 0, 0, NoIface, 0)

  /** One entry of a received message. */
  datatype Advert = Advert(afi: u16, prefix: u32, mask: u32, nextHop: u32, metric: u32)

  /** The database with the routing table it feeds. */
  datatype Rip = Rip(db: seq<Info>, rib: seq<RibEntry>, seqNo: u32)

  predicate IsNet(e: Info, prefix: u32, len: nat) {
    e.valid && e.prefix == prefix && e.len == len
  }

  /** The first slot of a network, or -1. */
  function NetSlot(db: seq<Info>, prefix: u32, len: nat): (i: int)
    ensures -1 <= i < |db|
    ensures i >= 0 ==> IsNet(db[i], prefix, len)
    ensures forall k :: 0 <= k < (if i < 0 then |db| else i) ==> !IsNet(db[k], prefix, len)
  {
    First(db, (e: Info) => IsNet(e, prefix, len))
  }

  /** The first unused slot, or -1. */
  function SpareSlot(db: seq<Info>): (i: int)
    ensures -1 <= i < |db|
    ensures i >= 0 ==> !db[i].valid
    ensures forall k :: 0 <= k < (if i < 0 then |db| else i) ==> db[k].valid
  {
    First(db, (e: Info) => !e.valid)
  }

  predicate Known(e: Info) {
    e.valid
  }

  function CountInfo(db: seq<Info>): nat {
    Count(db, Known)
  }

  function NetKey(prefix: u32, len: nat): RouteKey {
    RouteKey(prefix, len, RIP)
  }

  /** `router_add_route` for RIP; a full table leaves everything as it was. */
  function AddRoute(s: Rip, prefix: u32, len: nat, hop: Hop): Rip {
    var r := AddRib(s.rib, s.seqNo, NetKey(prefix, len), hop.nextHop, hop.iface, hop.metric);
    if r.None? then s else s.(rib := r.value, seqNo := NextSequence(s.rib, s.seqNo, NetKey(prefix, len)))
  }

  /** `router_del_route` for RIP. */
  function DropRoute(s: Rip, prefix: u32, len: nat): Rip {
    var r := DeleteRib(s.rib, NetKey(prefix, len));
    if r.None? then s else s.(rib := r.value)
  }

  function Candidate(metric: u32): u32 {
    if metric >= RIP_INFINITY - 1 then RIP_INFINITY else metric + 1
  }

  /** One entry of a message received on `iface` from `src`. */
  function Learn(s: Rip, now: nat, src: u32, iface: Iface, a: Advert): Rip {
    var len := MaskLen(a.mask);
    if a.afi != AFI_IPV4 || len.None? then s
    else LearnNet(s, now, iface, Masked(a.prefix, len.value), len.value, Candidate(a.metric),
                  if a.nextHop == 0 then src else a.nextHop)
  }

  function LearnNet(s: Rip, now: nat, iface: Iface, prefix: u32, len: nat, metric: u32, nextHop: u32): Rip {
    var i := NetSlot(s.db, prefix, len);
    if metric == RIP_INFINITY then
      if i < 0 then s
      else
        DropRoute(s.(db := s.db[i := s.db[i].(phase := Collecting, lastUpdate := now, learnedOn := iface,
                                              metric := RIP_INFINITY)]),
                  prefix, len)
    else
      var j := if i >= 0 then i else SpareSlot(s.db);
      if j < 0 then s
      else
        AddRoute(s.(db := s.db[j := Info(true, prefix, len, Active, metric, nextHop, iface, now)]),
                 prefix, len, Hop(nextHop, iface, metric))
  }

  function LearnAll(s: Rip, now: nat, src: u32, iface: Iface, adverts: seq<Advert>): Rip {
    if adverts == [] then s
    else Learn(LearnAll(s, now, src, iface, adverts[..|adverts| - 1]), now, src, iface, adverts[|adverts| - 1])
  }

  predicate TimedOut(e: Info, now: nat) {
    e.valid && e.phase == Active && now - e.lastUpdate > TIMEOUT
  }

  predicate Collectable(e: Info, now: nat) {
    e.valid && e.phase == Collecting && now - e.lastUpdate > TIMEOUT + GC
  }

  /** The timeout sweep over the first `k` slots. */
  function TimeoutSweep(s: Rip, now: nat, k: nat): (r: Rip)
    requires k <= |s.db|
    ensures |r.db| == |s.db|
  {
    if k == 0 then s else TimeoutSlot(TimeoutSweep(s, now, k - 1), now, k - 1)
  }

  /** One slot of the timeout sweep: a route that timed out leaves the table and starts to be collected. */
  function TimeoutSlot(s: Rip, now: nat, i: nat): (r: Rip)
    requires i < |s.db|
    ensures |r.db| == |s.db|
  {
    var e := s.db[i];
    if !TimedOut(e, now) then s
    else DropRoute(s.(db := s.db[i := e.(metric := RIP_INFINITY, phase := Collecting)]), e.prefix, e.len)
  }

  /** The collection sweep over the first `k` slots. */
  function GcSweep(db: seq<Info>, now: nat, k: nat): (r: seq<Info>)
    requires k <= |db|
    ensures |r| == |db|
  {
    if k == 0 then db
    else
      var r := GcSweep(db, now, k - 1);
      if Collectable(r[k - 1], now) then r[k - 1 := r[k - 1].(valid := false, learnedOn := NoIface)] else r
  }

  // ---------- The invariant ----------

  ghost predicate GoodInfo(e: Info) {
    e.valid ==>
      && e.len <= 32 && Masked(e.prefix, e.len) == e.prefix && 1 <= e.metric <= RIP_INFINITY && e.learnedOn != NoIface
      && (e.phase == Collecting <==> e.metric == RIP_INFINITY)
  }

  /** Normalized networks, each in one slot, metrics in range, infinity exactly while collecting. */
  ghost predicate GoodDb(db: seq<Info>) {
    && (forall i :: 0 <= i < |db| ==> GoodInfo(db[i]))
    && (forall i, j :: 0 <= i < j < |db| && db[i].valid ==> !IsNet(db[j], db[i].prefix, db[i].len))
  }

  /** The active route of a network. */
  function ActiveAt(db: seq<Info>, prefix: u32, len: nat): Option<Hop> {
    var i := NetSlot(db, prefix, len);
    if i < 0 || db[i].phase != Active then None else Some(Hop(db[i].nextHop, db[i].learnedOn, db[i].metric))
  }

  function RibAt(s: Rip, prefix: u32, len: nat): Option<Hop> {
    HopAt(s.rib, NetKey(prefix, len))
  }

  /** Every RIP route in the table is an active database route. */
  ghost predicate Backed(s: Rip) {
    forall prefix: u32, len: nat :: RibAt(s, prefix, len).Some? ==> RibAt(s, prefix, len) == ActiveAt(s.db, prefix, len)
  }

  /** The table's RIP routes are exactly the active database routes. */
  ghost predicate Mirrored(s: Rip) {
    forall prefix: u32, len: nat :: RibAt(s, prefix, len) == ActiveAt(s.db, prefix, len)
  }

  ghost predicate Inv(s: Rip) {
    GoodDb(s.db) && WellFormed(s.rib) && Backed(s)
  }

  lemma NetSlotUnique(db: seq<Info>, prefix: u32, len: nat, i: nat)
    requires GoodDb(db) && i < |db| && IsNet(db[i], prefix, len)
    ensures NetSlot(db, prefix, len) == i
  {
  }

  /** The active route of a network is that of the slot that holds it in use. */
  lemma ActiveAtIff(db: seq<Info>, prefix: u32, len: nat, hop: Hop)
    requires GoodDb(db)
    ensures ActiveAt(db, prefix, len) == Some(hop) <==>
            exists i :: 0 <= i < |db| && db[i].valid && db[i].prefix == prefix && db[i].len == len &&
                        db[i].phase == Active && db[i].nextHop == hop.nextHop && db[i].learnedOn == hop.iface &&
                        db[i].metric == hop.metric
  {
    if i :| 0 <= i < |db| && db[i].valid && db[i].prefix == prefix && db[i].len == len && db[i].phase == Active &&
            db[i].nextHop == hop.nextHop && db[i].learnedOn == hop.iface && db[i].metric == hop.metric {
      NetSlotUnique(db, prefix, len, i);
    }
  }

  /** Writing one slot changes the active routes of that slot's networks only. */
  lemma ActiveAtUpdate(db: seq<Info>, i: nat, e: Info, prefix: u32, len: nat)
    requires i < |db| && GoodDb(db) && GoodDb(db[i := e])
    ensures IsNet(e, prefix, len) ==>
              ActiveAt(db[i := e], prefix, len) ==
              if e.phase == Active then Some(Hop(e.nextHop, e.learnedOn, e.metric)) else None
    ensures !IsNet(e, prefix, len) && IsNet(db[i], prefix, len) ==> ActiveAt(db[i := e], prefix, len) == None
    ensures !IsNet(e, prefix, len) && !IsNet(db[i], prefix, len) ==>
              ActiveAt(db[i := e], prefix, len) == ActiveAt(db, prefix, len)
  {
    var db' := db[i := e];
    if IsNet(e, prefix, len) {
      NetSlotUnique(db', prefix, len, i);
    } else if IsNet(db[i], prefix, len) {
      NetSlotUnique(db, prefix, len, i);
      var k := NetSlot(db', prefix, len);
      if k >= 0 { NetSlotUnique(db, prefix, len, k); }
    } else {
      var k := NetSlot(db, prefix, len);
      if k >= 0 { NetSlotUnique(db', prefix, len, k); }
    }
  }

  /** A slot write whose networks are `prefix/len` (before and after), keeping the database good. */
  ghost predicate Rewrites(db: seq<Info>, i: nat, e: Info, prefix: u32, len: nat) {
    && i < |db| && GoodDb(db) && GoodInfo(e) && IsNet(e, prefix, len)
    && (IsNet(db[i], prefix, len) || (!db[i].valid && NetSlot(db, prefix, len) < 0))
  }

  lemma RewriteGood(db: seq<Info>, i: nat, e: Info, prefix: u32, len: nat)
    requires Rewrites(db, i, e, prefix, len)
    ensures GoodDb(db[i := e])
  {
    var db' := db[i := e];
    forall j, k | 0 <= j < k < |db'| && db'[j].valid ensures !IsNet(db'[k], db'[j].prefix, db'[j].len) {
      if j != i && k != i { assert !IsNet(db[k], db[j].prefix, db[j].len); }
    }
  }

  /** Storing an active route and adding it to the table. */
  lemma AddKeeps(s: Rip, i: nat, e: Info)
    requires Inv(s) && e.valid && e.phase == Active && Rewrites(s.db, i, e, e.prefix, e.len)
    ensures var hop := Hop(e.nextHop, e.learnedOn, e.metric);
            var s' := AddRoute(s.(db := s.db[i := e]), e.prefix, e.len, hop);
            && Inv(s')
            && (Mirrored(s) && (RibAt(s, e.prefix, e.len).Some? || FreeSlot(s.rib) >= 0) ==> Mirrored(s'))
  {
    var hop := Hop(e.nextHop, e.learnedOn, e.metric);
    var s' := AddRoute(s.(db := s.db[i := e]), e.prefix, e.len, hop);
    var key := NetKey(e.prefix, e.len);
    RewriteGood(s.db, i, e, e.prefix, e.len);
    AddStores(s.rib, s.seqNo, key, hop.nextHop, hop.iface, hop.metric, key);
    forall prefix: u32, len: nat
      ensures RibAt(s', prefix, len).Some? ==> RibAt(s', prefix, len) == ActiveAt(s'.db, prefix, len)
      ensures Mirrored(s) && (RibAt(s, e.prefix, e.len).Some? || FreeSlot(s.rib) >= 0) ==>
                RibAt(s', prefix, len) == ActiveAt(s'.db, prefix, len)
    {
      ActiveAtUpdate(s.db, i, e, prefix, len);
      AddStores(s.rib, s.seqNo, key, hop.nextHop, hop.iface, hop.metric, NetKey(prefix, len));
    }
  }

  /** Putting a route out of service and deleting it from the table. */
  lemma DropKeeps(s: Rip, i: nat, e: Info)
    requires Inv(s) && e.valid && e.phase == Collecting && Rewrites(s.db, i, e, e.prefix, e.len)
    ensures var s' := DropRoute(s.(db := s.db[i := e]), e.prefix, e.len);
            Inv(s') && (Mirrored(s) ==> Mirrored(s'))
  {
    var s' := DropRoute(s.(db := s.db[i := e]), e.prefix, e.len);
    RewriteGood(s.db, i, e, e.prefix, e.len);
    DeleteRemoves(s.rib, NetKey(e.prefix, e.len), NetKey(e.prefix, e.len));
    forall prefix: u32, len: nat
      ensures RibAt(s', prefix, len).Some? ==> RibAt(s', prefix, len) == ActiveAt(s'.db, prefix, len)
      ensures Mirrored(s) ==> RibAt(s', prefix, len) == ActiveAt(s'.db, prefix, len)
    {
      ActiveAtUpdate(s.db, i, e, prefix, len);
      DeleteRemoves(s.rib, NetKey(e.prefix, e.len), NetKey(prefix, len));
    }
  }

  // ---------- Every operation keeps the agreement ----------

  lemma LearnKeeps(s: Rip, now: nat, src: u32, iface: Iface, a: Advert)
    requires Inv(s) && iface != NoIface
    ensures Inv(Learn(s, now, src, iface, a)) && |Learn(s, now, src, iface, a).db| == |s.db|
    ensures Mirrored(s) && FreeSlot(s.rib) >= 0 ==> Mirrored(Learn(s, now, src, iface, a))
  {
    var len := MaskLen(a.mask);
    if a.afi == AFI_IPV4 && len.Some? {
      MaskLenIff(a.mask, len.value);
      MaskedIdempotent(a.prefix, len.value);
      LearnNetKeeps(s, now, iface, Masked(a.prefix, len.value), len.value, Candidate(a.metric),
                    if a.nextHop == 0 then src else a.nextHop);
    }
  }

  lemma LearnNetKeeps(s: Rip, now: nat, iface: Iface, prefix: u32, len: nat, metric: u32, nextHop: u32)
    requires Inv(s) && iface != NoIface && len <= 32 && Masked(prefix, len) == prefix && 1 <= metric <= RIP_INFINITY
    ensures var s' := LearnNet(s, now, iface, prefix, len, metric, nextHop);
            && Inv(s') && |s'.db| == |s.db|
            && (Mirrored(s) && FreeSlot(s.rib) >= 0 ==> Mirrored(s'))
  {
    var i := NetSlot(s.db, prefix, len);
    if metric == RIP_INFINITY {
      if i >= 0 {
        DropKeeps(s, i, s.db[i].(phase := Collecting, lastUpdate := now, learnedOn := iface, metric := RIP_INFINITY));
      }
    } else {
      var j := if i >= 0 then i else SpareSlot(s.db);
      if j >= 0 { AddKeeps(s, j, Info(true, prefix, len, Active, metric, nextHop, iface, now)); }
    }
  }

  lemma {:induction false} TimeoutKeeps(s: Rip, now: nat, k: nat)
    requires Inv(s) && k <= |s.db|
    ensures Inv(TimeoutSweep(s, now, k)) && (Mirrored(s) ==> Mirrored(TimeoutSweep(s, now, k)))
  {
    if k > 0 {
      TimeoutKeeps(s, now, k - 1);
      TimeoutSlotKeeps(TimeoutSweep(s, now, k - 1), now, k - 1, TimeoutSweep(s, now, k));
    }
  }

  lemma TimeoutSlotKeeps(s: Rip, now: nat, i: nat, s': Rip)
    requires Inv(s) && i < |s.db| && s' == TimeoutSlot(s, now, i)
    ensures Inv(s') && (Mirrored(s) ==> Mirrored(s'))
  {
    if TimedOut(s.db[i], now) { DropKeeps(s, i, s.db[i].(metric := RIP_INFINITY, phase := Collecting)); }
  }

  lemma CollectGood(db: seq<Info>, i: nat, e: Info)
    requires GoodDb(db) && i < |db| && db[i].valid && db[i].phase == Collecting && !e.valid
    ensures GoodDb(db[i := e])
    ensures forall prefix: u32, len: nat :: ActiveAt(db[i := e], prefix, len) == ActiveAt(db, prefix, len)
  {
    var db' := db[i := e];
    forall j, k | 0 <= j < k < |db'| && db'[j].valid ensures !IsNet(db'[k], db'[j].prefix, db'[j].len) {
      if j != i && k != i { assert !IsNet(db[k], db[j].prefix, db[j].len); }
    }
    forall prefix: u32, len: nat ensures ActiveAt(db', prefix, len) == ActiveAt(db, prefix, len) {
      ActiveAtUpdate(db, i, e, prefix, len);
      if IsNet(db[i], prefix, len) { NetSlotUnique(db, prefix, len, i); }
    }
  }

  lemma {:induction false} GcSweepGood(db: seq<Info>, now: nat, k: nat, prefix: u32, len: nat)
    requires GoodDb(db) && k <= |db|
    ensures GoodDb(GcSweep(db, now, k)) && ActiveAt(GcSweep(db, now, k), prefix, len) == ActiveAt(db, prefix, len)
  {
    if k > 0 {
      GcSweepGood(db, now, k - 1, prefix, len);
      var r := GcSweep(db, now, k - 1);
      if Collectable(r[k - 1], now) { CollectGood(r, k - 1, r[k - 1].(valid := false, learnedOn := NoIface)); }
    }
  }

  lemma GcKeeps(s: Rip, now: nat, k: nat)
    requires Inv(s) && k <= |s.db|
    ensures var s' := s.(db := GcSweep(s.db, now, k)); Inv(s') && (Mirrored(s) ==> Mirrored(s'))
  {
    GcSweepGood(s.db, now, k, 0, 0);
    forall prefix: u32, len: nat ensures ActiveAt(GcSweep(s.db, now, k), prefix, len) == ActiveAt(s.db, prefix, len) {
      GcSweepGood(s.db, now, k, prefix, len);
    }
    var s' := s.(db := GcSweep(s.db, now, k));
    assert forall prefix: u32, len: nat :: RibAt(s', prefix, len) == RibAt(s, prefix, len);
  }

  /** What can happen to the database and the table, in any order. */
  datatype Event =
    | Entry(now: nat, src: u32, iface: Iface, advert: Advert)
    | TimeoutTick(now: nat)
    | GcTick(now: nat)
    | OtherProtocol(op: RibOp)

  ghost predicate Allowed(e: Event) {
    (e.Entry? ==> e.iface != NoIface) && (e.OtherProtocol? ==> e.op.proto != RIP)
  }

  function Happen(s: Rip, e: Event): Rip {
    match e
    case Entry(now, src, iface, a) => Learn(s, now, src, iface, a)
    case TimeoutTick(now) => TimeoutSweep(s, now, |s.db|)
    case GcTick(now) => s.(db := GcSweep(s.db, now, |s.db|))
    case OtherProtocol(op) => var (rib, seqNo) := ApplyOp(s.rib, s.seqNo, op); s.(rib := rib, seqNo := seqNo)
  }

  function Exec(s: Rip, es: seq<Event>): Rip {
    if es == [] then s else Happen(Exec(s, es[..|es| - 1]), es[|es| - 1])
  }

  /** The table has room before every event of the run. */
  ghost predicate NeverFull(s: Rip, es: seq<Event>) {
    es == [] || (NeverFull(s, es[..|es| - 1]) && FreeSlot(Exec(s, es[..|es| - 1]).rib) >= 0)
  }

  lemma HappenKeeps(s: Rip, e: Event)
    requires Inv(s) && Allowed(e)
    ensures Inv(Happen(s, e)) && (Mirrored(s) && FreeSlot(s.rib) >= 0 ==> Mirrored(Happen(s, e)))
  {
    match e
    case Entry(now, src, iface, a) => LearnKeeps(s, now, src, iface, a);
    case TimeoutTick(now) => TimeoutKeeps(s, now, |s.db|);
    case GcTick(now) => GcKeeps(s, now, |s.db|);
    case OtherProtocol(op) => OtherKeeps(s, op);
  }

  lemma OtherKeeps(s: Rip, op: RibOp)
    requires Inv(s) && op.proto != RIP
    ensures var s' := Happen(s, OtherProtocol(op)); Inv(s') && (Mirrored(s) ==> Mirrored(s'))
  {
    var s' := Happen(s, OtherProtocol(op));
    OpKeeps(s.rib, s.seqNo, op, NetKey(0, 0));
    forall prefix: u32, len: nat ensures RibAt(s', prefix, len) == RibAt(s, prefix, len) {
      OpKeeps(s.rib, s.seqNo, op, NetKey(prefix, len));
    }
    SameRibSame(s, s');
  }

  lemma SameRibSame(s: Rip, s': Rip)
    requires Inv(s) && s'.db == s.db && WellFormed(s'.rib)
    requires forall prefix: u32, len: nat :: RibAt(s', prefix, len) == RibAt(s, prefix, len)
    ensures Inv(s') && (Mirrored(s) ==> Mirrored(s'))
  {
  }

  /** Over any interleaving the table's RIP routes are active database routes, and all of them if the table never was
      full. */
  lemma {:induction false} DatabaseAndTableAgree(s: Rip, es: seq<Event>)
    requires Inv(s) && forall i :: 0 <= i < |es| ==> Allowed(es[i])
    ensures Inv(Exec(s, es))
    ensures Mirrored(s) && NeverFull(s, es) ==> Mirrored(Exec(s, es))
  {
    if es != [] {
      DatabaseAndTableAgree(s, es[..|es| - 1]);
      HappenKeeps(Exec(s, es[..|es| - 1]), es[|es| - 1]);
    }
  }

  /** The initial state: no route anywhere, so both forms of the agreement hold. */
  lemma EmptyAgrees(dbSize: nat, ribSize: nat)
    ensures var s := Rip(seq(dbSize, _ => EMPTY), seq(ribSize, _ => EMPTY_RIB), 1); Inv(s) && Mirrored(s)
  {
    var s := Rip(seq(dbSize, _ => EMPTY), seq(ribSize, _ => EMPTY_RIB), 1);
    forall prefix: u32, len: nat ensures RibAt(s, prefix, len) == None && ActiveAt(s.db, prefix, len) == None {
      assert forall i :: 0 <= i < |s.rib| ==> !s.rib[i].valid;
      assert forall i :: 0 <= i < |s.db| ==> !s.db[i].valid;
    }
  }
}
