/** What one received entry does to the route database and the table, told by the slots and the fields. */
module RipLearning {
  import opened NetTypes
  import opened Prefix
  import opened RouteTables
  import opened RipDatabase
  import RipUpdate

  ghost predicate IsOf(e: Info, prefix: u32, len: nat) {
    e.valid && e.prefix == prefix && e.len == len
  }

  /** Slot `j` holds the network, and no other slot does. */
  ghost predicate OnlySlot(db: seq<Info>, prefix: u32, len: nat, j: nat) {
    j < |db| && forall k :: 0 <= k < |db| ==> (IsOf(db[k], prefix, len) <==> k == j)
  }

  ghost predicate Unknown(db: seq<Info>, prefix: u32, len: nat) {
    forall k :: 0 <= k < |db| ==> !IsOf(db[k], prefix, len)
  }

  /** Every other network and every other key of the table is as before. */
  ghost predicate OthersKept(s: Rip, s': Rip, prefix: u32, len: nat) {
    && |s'.db| == |s.db| && |s'.rib| == |s.rib|
    && (forall k :: 0 <= k < |s.db| && s.db[k].valid && !IsOf(s.db[k], prefix, len) ==> s'.db[k] == s.db[k])
    && (forall k :: 0 <= k < |s.db| && s'.db[k].valid && !IsOf(s'.db[k], prefix, len) ==> s'.db[k] == s.db[k])
    && (forall key: RouteKey :: key != NetKey(prefix, len) ==> RouteAt(s'.rib, key) == RouteAt(s.rib, key))
  }

  /** The table holds the key already or has a slot for it. */
  ghost predicate HasRoom(rib: seq<RibEntry>, key: RouteKey) {
    exists i :: 0 <= i < |rib| && (!rib[i].valid || Holds(rib[i], key))
  }

  lemma AddedToTable(s: Rip, s': Rip, prefix: u32, len: nat, hop: Hop)
    requires WellFormed(s.rib) && len <= 32 && Masked(prefix, len) == prefix && hop.iface != NoIface
    requires s' == AddRoute(s, prefix, len, hop)
    ensures s'.db == s.db && |s'.rib| == |s.rib|
    ensures forall key: RouteKey :: key != NetKey(prefix, len) ==> RouteAt(s'.rib, key) == RouteAt(s.rib, key)
    ensures HasRoom(s.rib, NetKey(prefix, len)) ==> HopAt(s'.rib, NetKey(prefix, len)) == Some(hop)
  {
    var key := NetKey(prefix, len);
    AddStores(s.rib, s.seqNo, key, hop.nextHop, hop.iface, hop.metric, key);
    forall other: RouteKey | other != key ensures RouteAt(s'.rib, other) == RouteAt(s.rib, other) {
      AddStores(s.rib, s.seqNo, key, hop.nextHop, hop.iface, hop.metric, other);
    }
  }

  lemma DroppedFromTable(s: Rip, s': Rip, prefix: u32, len: nat)
    requires WellFormed(s.rib) && s' == DropRoute(s, prefix, len)
    ensures s'.db == s.db && |s'.rib| == |s.rib| && RouteAt(s'.rib, NetKey(prefix, len)) == None
    ensures forall key: RouteKey :: key != NetKey(prefix, len) ==> RouteAt(s'.rib, key) == RouteAt(s.rib, key)
  {
    var key := NetKey(prefix, len);
    DeleteRemoves(s.rib, key, key);
    forall other: RouteKey | other != key ensures RouteAt(s'.rib, other) == RouteAt(s.rib, other) {
      DeleteRemoves(s.rib, key, other);
    }
  }

  /** A database after slot `j`, its own or a spare one, was given to the network. */
  lemma GivenSlot(db: seq<Info>, prefix: u32, len: nat, j: nat, e: Info)
    requires GoodDb(db) && j < |db| && IsOf(e, prefix, len)
    requires IsOf(db[j], prefix, len) || (!db[j].valid && Unknown(db, prefix, len))
    ensures OnlySlot(db[j := e], prefix, len, j)
  {
    forall k | 0 <= k < |db| && k != j ensures !IsOf(db[k], prefix, len) {
      if IsOf(db[k], prefix, len) && IsOf(db[j], prefix, len) {
        NetSlotUnique(db, prefix, len, k);
        NetSlotUnique(db, prefix, len, j);
      }
    }
  }

  /** A reachable route to a network the database knows or has a slot for: afterwards exactly one slot holds the
      network, active, one hop farther, as just heard; the table holds the same hop if it has room; nothing else
      changes. */
  lemma LearnsRoute(s: Rip, now: nat, src: u32, iface: Iface, a: Advert, len: nat, s': Rip) returns (j: nat)
    requires Inv(s) && iface != NoIface && a.afi == 2 && len <= 32 && a.mask == PrefixMask(len) && a.metric < 15
    requires exists k :: 0 <= k < |s.db| && (!s.db[k].valid || IsOf(s.db[k], Masked(a.prefix, len), len))
    requires s' == Learn(s, now, src, iface, a)
    ensures var prefix, nextHop := Masked(a.prefix, len), if a.nextHop == 0 then src else a.nextHop;
            && OnlySlot(s'.db, prefix, len, j)
            && s'.db[j] == Info(true, prefix, len, Active, a.metric + 1, nextHop, iface, now)
            && (HasRoom(s.rib, NetKey(prefix, len)) ==>
                  RibAt(s', prefix, len) == Some(Hop(nextHop, iface, a.metric + 1)))
            && OthersKept(s, s', prefix, len)
  {
    MaskLenIff(a.mask, len);
    MaskedIdempotent(a.prefix, len);
    var prefix, nextHop := Masked(a.prefix, len), if a.nextHop == 0 then src else a.nextHop;
    var i := NetSlot(s.db, prefix, len);
    j := if i >= 0 then i else SpareSlot(s.db);
    var e := Info(true, prefix, len, Active, a.metric + 1, nextHop, iface, now);
    GivenSlot(s.db, prefix, len, j, e);
    AddedToTable(s.(db := s.db[j := e]), s', prefix, len, Hop(nextHop, iface, a.metric + 1));
  }

  /** A reachable route to an unknown network changes nothing when no slot is left. */
  lemma LearnsNothingWhenFull(s: Rip, now: nat, src: u32, iface: Iface, a: Advert, len: nat)
    requires a.afi == 2 && len <= 32 && a.mask == PrefixMask(len) && a.metric < 15
    requires forall k :: 0 <= k < |s.db| ==> s.db[k].valid && !IsOf(s.db[k], Masked(a.prefix, len), len)
    ensures Learn(s, now, src, iface, a) == s
  {
    MaskLenIff(a.mask, len);
  }

  /** A withdrawn route: a known network is collecting from now on and gone from the table; nothing else changes. */
  lemma LearnsWithdrawal(s: Rip, now: nat, src: u32, iface: Iface, a: Advert, len: nat, j: nat, s': Rip)
    requires Inv(s) && iface != NoIface && a.afi == 2 && len <= 32 && a.mask == PrefixMask(len) && a.metric >= 15
    requires j < |s.db| && IsOf(s.db[j], Masked(a.prefix, len), len) && s' == Learn(s, now, src, iface, a)
    ensures var prefix := Masked(a.prefix, len);
            && OnlySlot(s'.db, prefix, len, j)
            && s'.db[j] == s.db[j].(phase := Collecting, metric := 16, learnedOn := iface, lastUpdate := now)
            && RibAt(s', prefix, len) == None && OthersKept(s, s', prefix, len)
  {
    MaskLenIff(a.mask, len);
    var prefix := Masked(a.prefix, len);
    NetSlotUnique(s.db, prefix, len, j);
    var e := s.db[j].(phase := Collecting, lastUpdate := now, learnedOn := iface, metric := RIP_INFINITY);
    GivenSlot(s.db, prefix, len, j, e);
    DroppedFromTable(s.(db := s.db[j := e]), s', prefix, len);
  }

  /** A withdrawal of an unknown network, another address family and a mask that is none all change nothing. */
  lemma LearnsNothing(s: Rip, now: nat, src: u32, iface: Iface, a: Advert)
    requires || a.afi != 2
             || (forall len :: 0 <= len <= 32 ==> a.mask != PrefixMask(len))
             || (a.metric >= 15 && exists len: nat :: len <= 32 && a.mask == PrefixMask(len) &&
                                                     Unknown(s.db, Masked(a.prefix, len), len))
    ensures Learn(s, now, src, iface, a) == s
  {
    if MaskLen(a.mask).Some? {
      MaskLenIff(a.mask, MaskLen(a.mask).value);
      var len := MaskLen(a.mask).value;
      if a.afi == 2 {
        var n: nat :| n <= 32 && a.mask == PrefixMask(n) && Unknown(s.db, Masked(a.prefix, n), n);
        MaskInjective(n, len);
      }
    }
  }

  /** What one router announces another recovers: the same network, one hop farther, from whoever announced it. */
  lemma AnnouncedRecovered(e: Info, s: Rip, now: nat, src: u32, iface: Iface, s': Rip) returns (j: nat)
    requires e.valid && GoodInfo(e) && e.metric < 15 && Inv(s) && iface != NoIface
    requires exists k :: 0 <= k < |s.db| && (!s.db[k].valid || IsOf(s.db[k], e.prefix, e.len))
    requires s' == Learn(s, now, src, iface, RipUpdate.AdvertOf(e))
    ensures OnlySlot(s'.db, e.prefix, e.len, j) && OthersKept(s, s', e.prefix, e.len)
    ensures s'.db[j] == Info(true, e.prefix, e.len, Active, e.metric + 1, if e.nextHop == 0 then src else e.nextHop,
                             iface, now)
  {
    j := LearnsRoute(s, now, src, iface, RipUpdate.AdvertOf(e), e.len, s');
  }

  /** A route that its owner is collecting is withdrawn from those that know it. */
  lemma WithdrawalRecovered(e: Info, s: Rip, now: nat, src: u32, iface: Iface, j: nat, s': Rip)
    requires e.valid && GoodInfo(e) && e.phase == Collecting && Inv(s) && iface != NoIface
    requires j < |s.db| && IsOf(s.db[j], e.prefix, e.len) && s' == Learn(s, now, src, iface, RipUpdate.AdvertOf(e))
    ensures OnlySlot(s'.db, e.prefix, e.len, j) && s'.db[j].phase == Collecting && RibAt(s', e.prefix, e.len) == None
  {
    LearnsWithdrawal(s, now, src, iface, RipUpdate.AdvertOf(e), e.len, j, s');
  }

  /** The entries of a message are learned in the order they have in it. */
  lemma {:induction false} LearnedInOrder(s: Rip, now: nat, src: u32, iface: Iface, first: seq<Advert>,
                                          rest: seq<Advert>)
    ensures LearnAll(s, now, src, iface, first + rest) ==
            LearnAll(LearnAll(s, now, src, iface, first), now, src, iface, rest)
  {
    if rest == [] {
      assert first + rest == first;
    } else {
      var n := |rest| - 1;
      assert (first + rest)[..|first + rest| - 1] == first + rest[..n];
      LearnedInOrder(s, now, src, iface, first, rest[..n]);
    }
  }

  /** And learning one entry is learning it. */
  lemma LearnedOne(s: Rip, now: nat, src: u32, iface: Iface, a: Advert)
    ensures LearnAll(s, now, src, iface, []) == s && LearnAll(s, now, src, iface, [a]) == Learn(s, now, src, iface, a)
  {
    assert [a][..0] == [];
  }
}
