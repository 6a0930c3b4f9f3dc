/** The slotted link-state database and the newest-sequence-wins merge. */
module Lsdbs {
  import opened NetTypes
  import opened Slots
  import opened OspfTypes
  import opened LsuCodec

  type Db = seq<Option<Lsa>>

  predicate HoldsKey(slot: Option<Lsa>, key: LsaKey) {
    slot.Some? && KeyOf(slot.value) == key
  }

  ghost predicate UniqueKeys(db: Db) {
    forall i, j :: 0 <= i < j < |db| && db[i].Some? ==> !HoldsKey(db[j], KeyOf(db[i].value))
  }

  /** The first slot that holds a key, or -1. */
  function SlotOf(db: Db, key: LsaKey): (i: int)
    ensures -1 <= i < |db|
    ensures i >= 0 ==> HoldsKey(db[i], key)
    ensures forall k :: 0 <= k < (if i < 0 then |db| else i) ==> !HoldsKey(db[k], key)
  {
    First(db, (slot: Option<Lsa>) => HoldsKey(slot, key))
  }

  /** The first unused slot, or -1. */
  function FirstUnused(db: Db): (i: int)
    ensures -1 <= i < |db|
    ensures i >= 0 ==> db[i].None?
    ensures forall k :: 0 <= k < (if i < 0 then |db| else i) ==> db[k].Some?
  {
    First(db, (slot: Option<Lsa>) => slot.None?)
  }

  predicate InUse(slot: Option<Lsa>) {
    slot.Some?
  }

  function CountUsed(db: Db): nat {
    Count(db, InUse)
  }

  /** The database as a partial map. */
  function Held(db: Db, key: LsaKey): (r: Option<Lsa>)
    ensures r.Some? ==> KeyOf(r.value) == key
  {
    var i := SlotOf(db, key);
    if i < 0 then None else db[i]
  }

  /** The slot an advertisement goes to, or -1 when it is not newer or the database is full. */
  function Target(db: Db, a: Lsa): (t: int)
    ensures -1 <= t < |db|
  {
    var i := SlotOf(db, KeyOf(a));
    if i >= 0 then (if db[i].value.seqNum >= a.seqNum then -1 else i) else FirstUnused(db)
  }

  /** Merging one advertisement. */
  function MergeOne(db: Db, a: Lsa): (r: Db)
    ensures |r| == |db|
  {
    var t := Target(db, a);
    if t < 0 then db else db[t := Some(a)]
  }

  /** Merging a whole update, oldest first. */
  function MergeAll(db: Db, lsas: seq<Lsa>): (r: Db)
    ensures |r| == |db|
  {
    if lsas == [] then db else MergeOne(MergeAll(db, lsas[..|lsas| - 1]), lsas[|lsas| - 1])
  }

  /** The slots an update writes, in order of first change. */
  function Changed(db: Db, lsas: seq<Lsa>): (r: seq<int>)
    ensures forall k :: 0 <= k < |r| ==> 0 <= r[k] < |db| && MergeAll(db, lsas)[r[k]].Some?
  {
    if lsas == [] then []
    else
      var front := lsas[..|lsas| - 1];
      var c, t := Changed(db, front), Target(MergeAll(db, front), lsas[|lsas| - 1]);
      if t < 0 || t in c then c else c + [t]
  }

  /** The advertisements flooded after an update: the final content of each changed slot. */
  function Flooded(db: Db, lsas: seq<Lsa>): (r: seq<Lsa>)
    ensures |r| == |Changed(db, lsas)|
  {
    var c := Changed(db, lsas);
    seq(|c|, i requires 0 <= i < |c| => MergeAll(db, lsas)[c[i]].value)
  }

  /** The LSU branch of `ospf_receive`: the new database and what is flooded; a rejected body changes nothing. */
  function ReceiveLsu(db: Db, body: seq<byte>): (Db, seq<Lsa>) {
    var parsed := ParseBody(body);
    if parsed.None? then (db, []) else (MergeAll(db, parsed.value), Flooded(db, parsed.value))
  }

  /** Receiving what a neighbour flooded is merging that one advertisement and passing it on if it was news. */
  lemma ReceiveFlood(db: Db, a: Lsa)
    requires WellFormedLsa(a)
    ensures ReceiveLsu(db, FloodBody(a)) == (MergeOne(db, a), if Target(db, a) >= 0 then [a] else [])
  {
    FloodRoundTrip(a);
    assert [a][..0] == [];
    assert MergeAll(db, [a]) == MergeOne(MergeAll(db, []), a) == MergeOne(db, a);
    assert Changed(db, [a]) == if Target(db, a) >= 0 then [Target(db, a)] else [];
    assert Flooded(db, [a]) == if Target(db, a) >= 0 then [a] else [];
  }

  lemma SlotUnique(db: Db, key: LsaKey, i: nat)
    requires UniqueKeys(db) && i < |db| && HoldsKey(db[i], key)
    ensures SlotOf(db, key) == i
  {
  }

  /** What a database holds under a key after one advertisement: the newer of the two. */
  function Newer(held: Option<Lsa>, a: Lsa): Lsa {
    if held.Some? && held.value.seqNum >= a.seqNum then held.value else a
  }

  /** Merging keeps keys unique, never goes back, and touches only the key of the advertisement. */
  lemma MergeOneHeld(db: Db, a: Lsa, key: LsaKey)
    requires UniqueKeys(db)
    ensures UniqueKeys(MergeOne(db, a))
    ensures var room := Held(db, key).Some? || FirstUnused(db) >= 0;
            Held(MergeOne(db, a), key) ==
            if key == KeyOf(a) && room then Some(Newer(Held(db, key), a)) else Held(db, key)
    ensures Held(MergeOne(db, a), KeyOf(a)) != Held(db, KeyOf(a)) <==> Target(db, a) >= 0
  {
    var db', t := MergeOne(db, a), Target(db, a);
    if t >= 0 {
      assert UniqueKeys(db') by {
        forall i, j | 0 <= i < j < |db'| && db'[i].Some? ensures !HoldsKey(db'[j], KeyOf(db'[i].value)) {
          if i != t && j != t { assert !HoldsKey(db[j], KeyOf(db[i].value)); }
        }
      }
      SlotUnique(db', KeyOf(a), t);
      if key != KeyOf(a) {
        var k := SlotOf(db, key);
        if k >= 0 { SlotUnique(db', key, k); }
      }
    }
  }

  /** Over any update keys stay unique and no key's sequence number decreases. */
  lemma {:induction false} MergeAllMonotone(db: Db, lsas: seq<Lsa>, key: LsaKey)
    requires UniqueKeys(db)
    ensures UniqueKeys(MergeAll(db, lsas))
    ensures Held(db, key).Some? ==>
              var after := Held(MergeAll(db, lsas), key);
              after.Some? && Held(db, key).value.seqNum <= after.value.seqNum
  {
    if lsas != [] {
      MergeAllMonotone(db, lsas[..|lsas| - 1], key);
      MergeOneHeld(MergeAll(db, lsas[..|lsas| - 1]), lsas[|lsas| - 1], key);
    }
  }

  // ---------- The changed slots ----------

  ghost predicate SlotNewer(before: Option<Lsa>, after: Option<Lsa>) {
    && after.Some?
    && (before.Some? ==> KeyOf(before.value) == KeyOf(after.value) && before.value.seqNum < after.value.seqNum)
  }

  /** The recorded slots are exactly those whose content the update changed, each recorded once. */
  lemma {:induction false} ChangedExact(db: Db, lsas: seq<Lsa>, i: int)
    requires 0 <= i < |db|
    ensures i in Changed(db, lsas) ==> SlotNewer(db[i], MergeAll(db, lsas)[i])
    ensures i !in Changed(db, lsas) ==> db[i] == MergeAll(db, lsas)[i]
    ensures forall j, k :: 0 <= j < k < |Changed(db, lsas)| ==> Changed(db, lsas)[j] != Changed(db, lsas)[k]
  {
    if lsas != [] {
      var front := lsas[..|lsas| - 1];
      ChangedExact(db, front, i);
    }
  }

  /** What is flooded after an update: exactly the advertisements that are in a slot now and were not there before. */
  lemma FloodedIsNews(db: Db, lsas: seq<Lsa>, a: Lsa)
    ensures a in Flooded(db, lsas) <==>
            exists i :: 0 <= i < |db| && MergeAll(db, lsas)[i] == Some(a) && db[i] != Some(a)
  {
    var after, c, flooded := MergeAll(db, lsas), Changed(db, lsas), Flooded(db, lsas);
    if a in flooded {
      var k :| 0 <= k < |c| && flooded[k] == a;
      assert c[k] in c;
      ChangedExact(db, lsas, c[k]);
    }
    if i :| 0 <= i < |db| && after[i] == Some(a) && db[i] != Some(a) {
      ChangedExact(db, lsas, i);
      var k :| 0 <= k < |c| && c[k] == i;
      assert flooded[k] == a;
    }
  }

  // ---------- Order independence ----------

  ghost function KeysOf(lsas: set<Lsa>): set<LsaKey> {
    set a | a in lsas :: KeyOf(a)
  }

  ghost function KeysHeld(db: Db): set<LsaKey> {
    set i | 0 <= i < |db| && db[i].Some? :: KeyOf(db[i].value)
  }

  lemma {:induction false} FullHoldsMany(db: Db)
    requires UniqueKeys(db) && forall i :: 0 <= i < |db| ==> db[i].Some?
    ensures |KeysHeld(db)| == |db|
  {
    if db != [] {
      var n := |db| - 1;
      FullHoldsMany(db[..n]);
      var k := KeyOf(db[n].value);
      assert KeysHeld(db) == KeysHeld(db[..n]) + {k};
      assert k !in KeysHeld(db[..n]) by {
        forall i | 0 <= i < n ensures KeyOf(db[i].value) != k {
          assert !HoldsKey(db[n], KeyOf(db[i].value));
        }
      }
    }
  }

  lemma SubsetCard<T>(a: set<T>, b: set<T>)
    requires a <= b
    ensures |a| <= |b|
  {
    assert b == a + (b - a);
  }

  /** A database whose keys come from at most as many keys as it has slots has room for every one of them. */
  lemma HasRoom(db: Db, keys: set<LsaKey>, key: LsaKey)
    requires UniqueKeys(db) && |keys| <= |db| && key in keys
    requires forall i :: 0 <= i < |db| && db[i].Some? ==> KeyOf(db[i].value) in keys
    ensures Held(db, key).Some? || FirstUnused(db) >= 0
  {
    if Held(db, key).None? && FirstUnused(db) < 0 {
      FullHoldsMany(db);
      assert key !in KeysHeld(db) && KeysHeld(db) + {key} <= keys;
      SubsetCard(KeysHeld(db) + {key}, keys);
      assert false;
    }
  }

  /** `m` holds exactly the newest advertisement received under every key. */
  ghost predicate IsNewest(db: Db, lsas: seq<Lsa>) {
    && UniqueKeys(db)
    && (forall i :: 0 <= i < |db| && db[i].Some? ==> db[i].value in lsas)
    && (forall a :: a in lsas ==> Held(db, KeyOf(a)).Some? && Held(db, KeyOf(a)).value.seqNum >= a.seqNum)
  }

  ghost predicate Unused(db: Db) {
    forall i :: 0 <= i < |db| ==> db[i].None?
  }

  lemma {:induction false} MergeAllNewest(db: Db, lsas: seq<Lsa>, keys: set<LsaKey>)
    requires Unused(db) && |keys| <= |db|
    requires forall a :: a in lsas ==> KeyOf(a) in keys
    ensures IsNewest(MergeAll(db, lsas), lsas)
  {
    if lsas != [] {
      var front, last := lsas[..|lsas| - 1], lsas[|lsas| - 1];
      MergeAllNewest(db, front, keys);
      assert front + [last] == lsas;
      MergeOneNewest(MergeAll(db, front), front, last, keys);
    }
  }

  lemma MergeOneNewest(mid: Db, front: seq<Lsa>, last: Lsa, keys: set<LsaKey>)
    requires IsNewest(mid, front) && |keys| <= |mid| && forall a :: a in front + [last] ==> KeyOf(a) in keys
    ensures IsNewest(MergeOne(mid, last), front + [last])
  {
    HasRoom(mid, keys, KeyOf(last));
    MergeOneHeld(mid, last, KeyOf(last));
    forall a | a in front + [last]
      ensures Held(MergeOne(mid, last), KeyOf(a)).Some?
      ensures Held(MergeOne(mid, last), KeyOf(a)).value.seqNum >= a.seqNum
    {
      MergeOneHeld(mid, last, KeyOf(a));
    }
  }

  lemma HeldIsSlot(db: Db, key: LsaKey)
    ensures Held(db, key).Some? ==> exists i :: 0 <= i < |db| && db[i] == Held(db, key)
  {
    if Held(db, key).Some? { assert db[SlotOf(db, key)] == Held(db, key); }
  }

  /** What is held under a key is what some slot holds with that id and router. */
  lemma HeldIff(db: Db, lsaId: u32, router: u32, a: Lsa)
    requires UniqueKeys(db)
    ensures Held(db, LsaKey(lsaId, router)) == Some(a) <==>
            a.lsaId == lsaId && a.advRouter == router && exists i :: 0 <= i < |db| && db[i] == Some(a)
  {
    if a.lsaId == lsaId && a.advRouter == router {
      if i :| 0 <= i < |db| && db[i] == Some(a) { SlotUnique(db, KeyOf(a), i); }
    }
    HeldIsSlot(db, LsaKey(lsaId, router));
  }

  /** Order does not matter: two histories with the same set of advertisements leave the same database. */
  lemma MergeOrderIndependent(db: Db, xs: seq<Lsa>, ys: seq<Lsa>, key: LsaKey)
    requires Unused(db) && (forall a :: a in xs <==> a in ys)
    requires |KeysOf(set a | a in xs)| <= |db|
    requires forall a, b :: a in xs && b in xs && KeyOf(a) == KeyOf(b) && a.seqNum == b.seqNum ==> a == b
    ensures Held(MergeAll(db, xs), key) == Held(MergeAll(db, ys), key)
  {
    var keys := KeysOf(set a | a in xs);
    MergeAllNewest(db, xs, keys);
    MergeAllNewest(db, ys, keys);
    var x, y := Held(MergeAll(db, xs), key), Held(MergeAll(db, ys), key);
    HeldIsSlot(MergeAll(db, xs), key);
    HeldIsSlot(MergeAll(db, ys), key);
  }

  /** The database slots and their count, as `OspfState` keeps them. */
  class Lsdb {
    const slots: array<Option<Lsa>>
    var count: nat

    ghost predicate Valid()
      reads this, slots
    {
      UniqueKeys(slots[..]) && count == CountUsed(slots[..])
    }

    constructor (size: nat)
      ensures Valid() && fresh(slots) && slots.Length == size && Unused(slots[..])
    {
      slots := new Option<Lsa>[size](_ => None);
      count := 0;
      new;
      CountNone(slots[..], InUse);
    }

    /** The slot scan for one parsed advertisement. */
    method FindTarget(a: Lsa) returns (t: int)
      ensures t == Target(slots[..], a)
    {
      var matching, free := -1, -1;
      var i := 0;
      while i < slots.Length
        invariant 0 <= i <= slots.Length && matching == -1 && -1 <= free < i
        invariant forall k :: 0 <= k < i ==> !HoldsKey(slots[k], KeyOf(a))
        invariant free >= 0 ==> slots[free].None?
        invariant forall k :: 0 <= k < (if free < 0 then i else free) ==> slots[k].Some?
      {
        if slots[i].None? {
          if free == -1 { free := i; }
        } else if KeyOf(slots[i].value) == KeyOf(a) {
          assert HoldsKey(slots[..][i], KeyOf(a));
          matching := i;
          break;
        }
        i := i + 1;
      }
      if matching != -1 {
        assert SlotOf(slots[..], KeyOf(a)) == matching;
        return if slots[matching].value.seqNum >= a.seqNum then -1 else matching;
      }
      assert SlotOf(slots[..], KeyOf(a)) < 0;
      assert free >= 0 ==> slots[..][free].None?;
      return free;
    }

    /** The merge loop: installs what is newer and records each changed slot once. */
    method Merge(parsed: seq<Lsa>) returns (changed: seq<int>)
      requires Valid()
      modifies this`count, slots
      ensures Valid()
      ensures slots[..] == MergeAll(old(slots[..]), parsed) && changed == Changed(old(slots[..]), parsed)
    {
      ghost var db := slots[..];
      changed := [];
      for i := 0 to |parsed|
        invariant Valid()
        invariant slots[..] == MergeAll(db, parsed[..i]) && changed == Changed(db, parsed[..i])
      {
        assert parsed[..i + 1][..i] == parsed[..i];
        var t := MergeInto(parsed[i]);
        if t == -1 { continue; }
        if t !in changed { changed := changed + [t]; }
      }
      assert parsed[..|parsed|] == parsed;
    }

    /** One round of that loop: the slot written, or -1. */
    method MergeInto(a: Lsa) returns (t: int)
      requires Valid()
      modifies this`count, slots
      ensures Valid() && t == Target(old(slots[..]), a) && slots[..] == MergeOne(old(slots[..]), a)
    {
      ghost var before := slots[..];
      MergeOneHeld(before, a, KeyOf(a));
      t := FindTarget(a);
      if t == -1 { return; }
      CountUpdate(before, InUse, t, Some(a));
      if slots[t].None? { count := count + 1; }
      slots[t] := Some(a);
      assert slots[..] == before[t := Some(a)];
    }

    /** The LSU branch of `ospf_receive`. */
    method Receive(body: seq<byte>) returns (ok: bool, flooded: seq<Lsa>)
      requires Valid()
      modifies this`count, slots
      ensures Valid() && (ok <==> ParseBody(body).Some?)
      ensures (slots[..], flooded) == ReceiveLsu(old(slots[..]), body)
    {
      var parsed := ParseLoop(body);
      if parsed.None? { return false, []; }
      ghost var db := slots[..];
      var changed := Merge(parsed.value);
      assert forall k :: 0 <= k < |changed| ==> slots[..][changed[k]].Some?;
      flooded := FloodLoop(changed);
      assert flooded == Flooded(db, parsed.value);
      ok := true;
    }

    /** The flooding loop over the changed slots. */
    method FloodLoop(changed: seq<int>) returns (flooded: seq<Lsa>)
      requires forall k :: 0 <= k < |changed| ==> 0 <= changed[k] < slots.Length && slots[changed[k]].Some?
      ensures |flooded| == |changed| && forall k :: 0 <= k < |changed| ==> flooded[k] == slots[changed[k]].value
    {
      flooded := [];
      for i := 0 to |changed|
        invariant |flooded| == i && forall k :: 0 <= k < i ==> flooded[k] == slots[changed[k]].value
      {
        flooded := flooded + [slots[changed[i]].value];
      }
    }
  }

}
