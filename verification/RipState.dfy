/** The RIP handlers as the source runs them: database slots updated in place beside the router's table. */
module RipState {
  import opened NetTypes
  import opened Slots
  import opened Prefix
  import opened RouteTables
  import opened RipDatabase
  import RipUpdate

  lemma SweptSlotGood(s: Rip, now: nat, i: nat)
    requires Inv(s) && i < |s.db|
    ensures GoodInfo(TimeoutSweep(s, now, i).db[i])
  {
    TimeoutKeeps(s, now, i);
  }

  class RipState {
    const db: array<Info>
    var count: nat
    const table: RouteTable

    ghost predicate Counted()
      reads this, db
    {
      count == CountInfo(db[..])
    }

    ghost predicate Valid()
      reads this, db, table, table.rib, table.selected, table.fib
    {
      Counted() && table.Valid() && Inv(View())
    }

    ghost function View(): Rip
      reads this, db, table, table.rib
    {
      Rip(db[..], table.rib[..], table.nextSequence)
    }

    constructor (size: nat, table: RouteTable)
      requires table.Valid() && forall key: RouteKey :: key.proto == RIP ==> RouteAt(table.rib[..], key) == None
      ensures Valid() && this.table == table && fresh(db) && db.Length == size
    {
      db := new Info[size](_ => EMPTY);
      count := 0;
      this.table := table;
      new;
      CountNone(db[..], Known);
    }

    method FindNet(prefix: u32, len: nat) returns (i: int)
      ensures i == NetSlot(db[..], prefix, len)
    {
      i := 0;
      while i < db.Length && !IsNet(db[i], prefix, len)
        invariant 0 <= i <= db.Length && forall k :: 0 <= k < i ==> !IsNet(db[k], prefix, len)
      {
        i := i + 1;
      }
      assert i < db.Length ==> IsNet(db[..][i], prefix, len);
      if i == db.Length { i := -1; }
    }

    method FindSpare() returns (i: int)
      ensures i == SpareSlot(db[..])
    {
      i := 0;
      while i < db.Length && db[i].valid
        invariant 0 <= i <= db.Length && forall k :: 0 <= k < i ==> db[k].valid
      {
        i := i + 1;
      }
      assert i < db.Length ==> !db[..][i].valid;
      if i == db.Length { i := -1; }
    }

    /** Writes one slot and keeps the count of valid slots exact. */
    method Store(i: nat, e: Info)
      requires i < db.Length && Counted()
      modifies this`count, db
      ensures Counted() && db[..] == old(db[..])[i := e]
    {
      CountUpdate(db[..], Known, i, e);
      if !db[i].valid && e.valid { count := count + 1; }
      if db[i].valid && !e.valid && count > 0 { count := count - 1; }
      assert CountInfo(db[..][i := e]) == count;
      db[i] := e;
      assert db[..] == old(db[..])[i := e];
    }

    method AddToTable(prefix: u32, len: nat, hop: Hop)
      requires table.Valid() && len <= 32 && Masked(prefix, len) == prefix && hop.iface != NoIface
      modifies table, table.rib, table.selected, table.fib
      ensures table.Valid() && View() == AddRoute(old(View()), prefix, len, hop)
    {
      var ok := table.Add(prefix, len, hop.nextHop, hop.iface, hop.metric, RIP);
    }

    method DropFromTable(prefix: u32, len: nat)
      requires table.Valid() && len <= 32 && Masked(prefix, len) == prefix
      modifies table`ribCount, table`fibCount, table.rib, table.selected, table.fib
      ensures table.Valid() && View() == DropRoute(old(View()), prefix, len)
    {
      var ok := table.Delete(prefix, len, RIP);
    }

    /** One round of the entry loop of `rip_receive`, for a payload that came in on a real interface. */
    method ReceiveEntry(now: nat, src: u32, iface: Iface, a: Advert)
      requires Valid() && iface != NoIface
      modifies this`count, db, table, table.rib, table.selected, table.fib
      ensures Valid() && View() == Learn(old(View()), now, src, iface, a)
    {
      ghost var s := View();
      TakeEntry(now, src, iface, a);
      LearnKeeps(s, now, src, iface, a);
    }

    /** `rip_receive`: a message that fails a format check, or came in on no interface, changes nothing. */
    method ReceiveMessage(m: seq<byte>, now: nat, src: u32, iface: Iface)
      requires Valid()
      modifies this`count, db, table, table.rib, table.selected, table.fib
      ensures Valid()
      ensures var entries := RipUpdate.Decode(m);
              View() == if iface == NoIface || entries.None? then old(View())
                        else LearnAll(old(View()), now, src, iface, entries.value)
    {
      if iface == NoIface { return; }
      var entries := RipUpdate.Decode(m);
      if entries.None? { return; }
      ghost var s := View();
      for i := 0 to |entries.value|
        invariant Valid() && View() == LearnAll(s, now, src, iface, entries.value[..i])
      {
        assert entries.value[..i + 1][..i] == entries.value[..i];
        ReceiveEntry(now, src, iface, entries.value[i]);
      }
      assert entries.value[..|entries.value|] == entries.value;
    }

    method TakeEntry(now: nat, src: u32, iface: Iface, a: Advert)
      requires Counted() && table.Valid() && iface != NoIface
      modifies this`count, db, table, table.rib, table.selected, table.fib
      ensures Counted() && table.Valid() && View() == Learn(old(View()), now, src, iface, a)
    {
      if a.afi != AFI_IPV4 { return; }
      var r := MaskToPrefixLen(a.mask);
      MaskLenIs(a.mask, r);
      if r.None? { return; }
      var len := r.value;
      var prefix := Masked(a.prefix, len);
      MaskedIdempotent(a.prefix, len);
      var metric := if a.metric > RIP_INFINITY then RIP_INFINITY else a.metric;
      var candidate := if metric + 1 > RIP_INFINITY then RIP_INFINITY else metric + 1;
      var nextHop := if a.nextHop == 0 then src else a.nextHop;
      assert candidate == Candidate(a.metric);
      ReceiveNet(now, iface, prefix, len, candidate, nextHop);
    }

    method ReceiveNet(now: nat, iface: Iface, prefix: u32, len: nat, metric: u32, nextHop: u32)
      requires Counted() && table.Valid() && iface != NoIface && len <= 32 && Masked(prefix, len) == prefix
      modifies this`count, db, table, table.rib, table.selected, table.fib
      ensures Counted() && table.Valid()
      ensures View() == LearnNet(old(View()), now, iface, prefix, len, metric, nextHop)
    {
      var i := FindNet(prefix, len);
      if metric == RIP_INFINITY {
        if i < 0 { return; }
        Store(i, db[i].(phase := Collecting, lastUpdate := now, learnedOn := iface, metric := RIP_INFINITY));
        DropFromTable(prefix, len);
        return;
      }
      if i < 0 { i := FindSpare(); }
      if i < 0 { return; }
      Store(i, Info(true, prefix, len, Active, metric, nextHop, iface, now));
      AddToTable(prefix, len, Hop(nextHop, iface, metric));
    }

    /** The sweep of `rip_timeout_handler`. */
    method TimeoutHandler(now: nat)
      requires Valid()
      modifies this`count, db, table`ribCount, table`fibCount, table.rib, table.selected, table.fib
      ensures Valid() && View() == TimeoutSweep(old(View()), now, db.Length)
    {
      ghost var s := View();
      for i := 0 to db.Length
        invariant Counted() && table.Valid() && View() == TimeoutSweep(s, now, i)
      {
        SweptSlotGood(s, now, i);
        ExpireSlot(i, now);
      }
      TimeoutKeeps(s, now, db.Length);
    }

    /** One slot of that sweep. */
    method ExpireSlot(i: nat, now: nat)
      requires Counted() && table.Valid() && i < db.Length && GoodInfo(View().db[i])
      modifies this`count, db, table`ribCount, table`fibCount, table.rib, table.selected, table.fib
      ensures Counted() && table.Valid() && View() == TimeoutSlot(old(View()), now, i)
    {
      var e := db[i];
      assert View().db[i] == e;
      if e.valid && e.phase == Active {
        if now - e.lastUpdate <= TIMEOUT { return; }
        Store(i, e.(metric := RIP_INFINITY, phase := Collecting));
        DropFromTable(e.prefix, e.len);
      }
    }

    /** The sweep of `rip_gc_handler`. */
    method GcHandler(now: nat)
      requires Valid()
      modifies this`count, db
      ensures Valid() && View() == old(View()).(db := GcSweep(old(db[..]), now, db.Length))
    {
      ghost var before := db[..];
      for i := 0 to db.Length
        invariant Counted() && db[..] == GcSweep(before, now, i)
      {
        assert db[..][i] == db[i];
        if db[i].valid && db[i].phase == Collecting {
          if now - db[i].lastUpdate <= TIMEOUT + GC { continue; }
          Store(i, db[i].(valid := false, learnedOn := NoIface));
        }
      }
      GcKeeps(old(View()), now, db.Length);
    }
  }

  lemma MaskLenIs(mask: u32, r: Option<nat>)
    requires forall len :: r == Some(len) <==> len <= 32 && mask == PrefixMask(len)
    ensures r == MaskLen(mask) && (r.Some? ==> r.value <= 32)
  {
    if MaskLen(mask).Some? { MaskLenIff(mask, MaskLen(mask).value); }
    if r.Some? { MaskLenIff(mask, r.value); }
  }

}
