/** RIP update messages: split horizon, batching, and what a receiver reads out of them. */
module RipUpdate {
  import opened NetTypes
  import opened Prefix
  import opened RipDatabase

  const HDR_LEN: nat := 4
  const MAX_ROUTES: nat := 25
  const RESPONSE: byte := 2
  const VERSION: byte := 2
  const HEADER: seq<byte> := [RESPONSE, VERSION, 0, 0]

  function EncodeEntry(a: Advert): (b: seq<byte>)
    ensures |b| == 20
  {
    Put16(a.afi) + Put16(0) + Put32(a.prefix) + Put32(a.mask) + Put32(a.nextHop) + Put32(a.metric)
  }

  function DecodeEntry(b: seq<byte>): Advert
    requires |b| >= 20
  {
    Advert(Get16(b), Get32(b[4..]), Get32(b[8..]), Get32(b[12..]), Get32(b[16..]))
  }

  lemma FourWords(a: u32, b: u32, c: u32, d: u32)
    ensures var w := Put32(a) + Put32(b) + Put32(c) + Put32(d);
            Get32(w) == a && Get32(w[4..]) == b && Get32(w[8..]) == c && Get32(w[12..]) == d
  {
    var w := Put32(a) + Put32(b) + Put32(c) + Put32(d);
    assert w == Put32(a) + w[4..] && w[4..] == Put32(b) + w[8..];
    assert w[8..] == Put32(c) + w[12..] && w[12..] == Put32(d) + [];
    Field32RoundTrip(a, [0, 0, 0, 0], w[4..]);
    Field32RoundTrip(b, [0, 0, 0, 0], w[8..]);
    Field32RoundTrip(c, [0, 0, 0, 0], w[12..]);
    Field32RoundTrip(d, [0, 0, 0, 0], []);
  }

  lemma EntryRoundTrip(a: Advert)
    ensures DecodeEntry(EncodeEntry(a)) == a
  {
    var b := EncodeEntry(a);
    var w := Put32(a.prefix) + Put32(a.mask) + Put32(a.nextHop) + Put32(a.metric);
    assert b[4..] == w && b[8..] == w[4..] && b[12..] == w[8..] && b[16..] == w[12..];
    FourWords(a.prefix, a.mask, a.nextHop, a.metric);
    Field16RoundTrip(a.afi, [0, 0], b[2..]);
    assert b == Put16(a.afi) + b[2..];
  }

  function EncodeEntries(adverts: seq<Advert>): (b: seq<byte>)
    ensures |b| == 20 * |adverts|
  {
    if adverts == [] then [] else EncodeEntries(adverts[..|adverts| - 1]) + EncodeEntry(adverts[|adverts| - 1])
  }

  function DecodeEntries(b: seq<byte>, n: nat): (r: seq<Advert>)
    requires |b| == 20 * n
    ensures |r| == n
    decreases n
  {
    if n == 0 then []
    else DecodeEntries(b[..20 * (n - 1)], n - 1) + [DecodeEntry(b[20 * (n - 1)..])]
  }

  lemma DecodeSnoc(front: seq<byte>, entry: seq<byte>, n: nat, adverts: seq<Advert>)
    requires |front| == 20 * n && |entry| == 20 && |adverts| == n + 1
    requires DecodeEntries(front, n) == adverts[..n] && DecodeEntry(entry) == adverts[n]
    ensures DecodeEntries(front + entry, n + 1) == adverts
  {
    assert (front + entry)[..20 * n] == front && (front + entry)[20 * n..] == entry;
    assert adverts == adverts[..n] + [adverts[n]];
  }

  lemma {:induction false} EntriesRoundTrip(adverts: seq<Advert>)
    ensures DecodeEntries(EncodeEntries(adverts), |adverts|) == adverts
  {
    if adverts != [] {
      var n := |adverts| - 1;
      EntriesRoundTrip(adverts[..n]);
      EntryRoundTrip(adverts[n]);
      DecodeSnoc(EncodeEntries(adverts[..n]), EncodeEntry(adverts[n]), n, adverts);
    }
  }

  /** The format checks of `rip_receive`, and the entries of an accepted message. */
  function Decode(m: seq<byte>): Option<seq<Advert>> {
    if |m| < HDR_LEN || (|m| - HDR_LEN) % 20 != 0 then None
    else
      var n := (|m| - HDR_LEN) / 20;
      if n > MAX_ROUTES || m[1] != VERSION || m[0] != RESPONSE then None
      else Some(DecodeEntries(m[HDR_LEN..], n))
  }

  function Message(adverts: seq<Advert>): seq<byte> {
    HEADER + EncodeEntries(adverts)
  }

  lemma WholeEntries(x: nat, n: nat)
    requires x == 20 * n
    ensures x % 20 == 0 && x / 20 == n
  {
  }

  lemma DecodeAs(m: seq<byte>, n: nat)
    requires |m| == HDR_LEN + 20 * n && n <= MAX_ROUTES && m[0] == RESPONSE && m[1] == VERSION
    ensures Decode(m) == Some(DecodeEntries(m[HDR_LEN..], n))
  {
    WholeEntries(|m| - HDR_LEN, n);
  }

  /** A message of at most 25 entries passes the receiver's checks and yields its entries. */
  lemma MessageRoundTrip(adverts: seq<Advert>)
    requires |adverts| <= MAX_ROUTES
    ensures Decode(Message(adverts)) == Some(adverts)
  {
    var m, b := Message(adverts), EncodeEntries(adverts);
    assert m[HDR_LEN..] == b;
    DecodeAs(m, |adverts|);
    EntriesRoundTrip(adverts);
  }

  /** The entry that lies at offset `at` of a message. */
  ghost predicate EntryAt(m: seq<byte>, at: nat, a: Advert)
    requires at + 20 <= |m|
  {
    && Get16(m[at..]) == a.afi && Get32(m[at + 4..]) == a.prefix && Get32(m[at + 8..]) == a.mask
    && Get32(m[at + 12..]) == a.nextHop && Get32(m[at + 16..]) == a.metric
  }

  lemma {:induction false} DecodedAt(b: seq<byte>, n: nat, k: nat)
    requires |b| == 20 * n && k < n
    ensures EntryAt(b, 20 * k, DecodeEntries(b, n)[k])
    decreases n
  {
    var end := 20 * (n - 1);
    if k < n - 1 {
      DecodedAt(b[..end], n - 1, k);
      EntryLonger(b, end, 20 * k, DecodeEntries(b[..end], n - 1)[k]);
    } else {
      EntryRead(b, end);
    }
  }

  lemma EntryLonger(b: seq<byte>, end: nat, at: nat, a: Advert)
    requires at + 20 <= end <= |b| && EntryAt(b[..end], at, a)
    ensures EntryAt(b, at, a)
  {
    var x := b[..end];
    assert x[at..][..20] == b[at..][..20];
    assert forall i :: 0 <= i < 20 ==> x[at..][i] == b[at..][i];
  }

  lemma EntryRead(b: seq<byte>, at: nat)
    requires at + 20 <= |b|
    ensures EntryAt(b, at, DecodeEntry(b[at..]))
  {
    var e := b[at..];
    assert e[4..] == b[at + 4..] && e[8..] == b[at + 8..] && e[12..] == b[at + 12..] && e[16..] == b[at + 16..];
  }

  /** The entry at an offset behind the header. */
  lemma EntryBehind(m: seq<byte>, at: nat, a: Advert)
    requires HDR_LEN + at + 20 <= |m| && EntryAt(m[HDR_LEN..], at, a)
    ensures EntryAt(m, HDR_LEN + at, a)
  {
    var b := m[HDR_LEN..];
    assert b[at..] == m[HDR_LEN + at..] && b[at + 4..] == m[HDR_LEN + at + 4..] && b[at + 8..] == m[HDR_LEN + at + 8..];
    assert b[at + 12..] == m[HDR_LEN + at + 12..] && b[at + 16..] == m[HDR_LEN + at + 16..];
  }

  /** A message is accepted exactly as a version 2 response of at most 25 whole entries, which are those it yields. */
  lemma DecodeIff(m: seq<byte>, adverts: seq<Advert>)
    ensures Decode(m) == Some(adverts) <==>
            && |m| == 4 + 20 * |adverts| && |adverts| <= 25 && m[0] == 2 && m[1] == 2
            && forall k :: 0 <= k < |adverts| ==> EntryAt(m, 4 + 20 * k, adverts[k])
  {
    if |m| >= HDR_LEN && (|m| - HDR_LEN) % 20 == 0 {
      var n := (|m| - HDR_LEN) / 20;
      var read := DecodeEntries(m[HDR_LEN..], n);
      forall k | 0 <= k < n ensures EntryAt(m, 4 + 20 * k, read[k]) {
        DecodedAt(m[HDR_LEN..], n, k);
        EntryBehind(m, 20 * k, read[k]);
      }
      if |m| == 4 + 20 * |adverts| && forall k :: 0 <= k < n ==> EntryAt(m, 4 + 20 * k, adverts[k]) {
        assert forall k :: 0 <= k < n ==> EntryAt(m, 4 + 20 * k, read[k]) && read[k] == adverts[k];
        assert read == adverts;
      }
    }
  }

  /** How 10.0.0.0/8 at metric 1 lies in a message. */
  lemma EntryExample()
    ensures EncodeEntry(Advert(2, 0x0A00_0000, 0xFF00_0000, 0, 1)) ==
            [0, 2, 0, 0, 10, 0, 0, 0, 255, 0, 0, 0, 0, 0, 0, 0, 0, 0, 0, 1]
  {
  }

  predicate Announces(e: Info, out: Iface) {
    e.valid && e.learnedOn != out
  }

  /** How a database entry is advertised. */
  function AdvertOf(e: Info): Advert {
    Advert(AFI_IPV4, e.prefix, PrefixMask(e.len), e.nextHop, if e.metric > RIP_INFINITY then RIP_INFINITY else e.metric)
  }

  /** The entries to announce on `out`: every valid route not learned there, in slot order. */
  function Announced(db: seq<Info>, out: Iface): seq<Advert> {
    if db == [] then []
    else Announced(db[..|db| - 1], out) + if Announces(db[|db| - 1], out) then [AdvertOf(db[|db| - 1])] else []
  }

  /** Split horizon, told by the slots: the advertisements are, in slot order, those of exactly the used slots that were
      not learned on `out`, each with its network, its mask, its next hop and its metric. */
  ghost predicate AnnouncesSlots(adverts: seq<Advert>, db: seq<Info>, out: Iface, slots: seq<nat>) {
    && |adverts| == |slots|
    && (forall i, j :: 0 <= i < j < |slots| ==> slots[i] < slots[j])
    && (forall i :: 0 <= i < |slots| ==> slots[i] < |db| && Advertises(adverts[i], db[slots[i]]))
    && (forall k: nat :: k in slots <==> IsTold(db, out, k))
  }

  ghost predicate IsTold(db: seq<Info>, out: Iface, k: nat) {
    k < |db| && db[k].valid && db[k].learnedOn != out
  }

  ghost predicate Advertises(a: Advert, e: Info) {
    && a.afi == 2 && a.prefix == e.prefix && a.mask == PrefixMask(e.len) && a.nextHop == e.nextHop
    && a.metric == if e.metric < 16 then e.metric else 16
  }

  lemma {:induction false} AnnouncedSlots(db: seq<Info>, out: Iface) returns (slots: seq<nat>)
    ensures AnnouncesSlots(Announced(db, out), db, out, slots)
  {
    if db == [] { return []; }
    var n := |db| - 1;
    slots := AnnouncedSlots(db[..n], out);
    forall k: nat ensures IsTold(db, out, k) <==> k in slots || (k == n && db[n].valid && db[n].learnedOn != out) {
      assert k in slots <==> IsTold(db[..n], out, k);
    }
    if db[n].valid && db[n].learnedOn != out {
      AnnouncesOneMore(Announced(db[..n], out), db, out, slots);
      slots := slots + [n];
    }
  }

  lemma AnnouncesOneMore(adverts: seq<Advert>, db: seq<Info>, out: Iface, slots: seq<nat>)
    requires db != [] && IsTold(db, out, |db| - 1) && AnnouncesSlots(adverts, db[..|db| - 1], out, slots)
    requires forall k: nat :: IsTold(db, out, k) <==> k in slots || k == |db| - 1
    ensures AnnouncesSlots(adverts + [AdvertOf(db[|db| - 1])], db, out, slots + [|db| - 1])
  {
    var n := |db| - 1;
    var more := slots + [n];
    assert forall k: nat :: k in more <==> k in slots || k == n;
  }

  /** All the entries a receiver reads out of a list of messages. */
  function ReadAll(messages: seq<seq<byte>>): seq<Advert> {
    if messages == [] then []
    else
      var last := Decode(messages[|messages| - 1]);
      ReadAll(messages[..|messages| - 1]) + if last.Some? then last.value else []
  }

  ghost predicate Acceptable(m: seq<byte>) {
    Decode(m).Some? && 1 <= |Decode(m).value| <= MAX_ROUTES
  }

  ghost function Flatten(batches: seq<seq<Advert>>): seq<Advert> {
    if batches == [] then [] else Flatten(batches[..|batches| - 1]) + batches[|batches| - 1]
  }

  /** The messages are the batches, none empty and none too long. */
  ghost predicate Written(messages: seq<seq<byte>>, batches: seq<seq<Advert>>) {
    && |messages| == |batches|
    && forall i :: 0 <= i < |batches| ==> 1 <= |batches[i]| <= MAX_ROUTES && messages[i] == Message(batches[i])
  }

  lemma {:induction false} WrittenIsRead(messages: seq<seq<byte>>, batches: seq<seq<Advert>>)
    requires Written(messages, batches)
    ensures ReadAll(messages) == Flatten(batches)
    ensures forall i :: 0 <= i < |messages| ==> Acceptable(messages[i])
  {
    forall i | 0 <= i < |messages| ensures Acceptable(messages[i]) {
      MessageRoundTrip(batches[i]);
    }
    if messages != [] {
      var n := |messages| - 1;
      WrittenIsRead(messages[..n], batches[..n]);
      MessageRoundTrip(batches[n]);
    }
  }

  /** Between two writes: the finished messages hold `batches`, the payload holds `batch`, and all of it is `sent`. */
  ghost predicate Sending(sent: seq<Advert>, messages: seq<seq<byte>>, batches: seq<seq<Advert>>, payload: seq<byte>,
                          batch: seq<Advert>) {
    && payload == Message(batch) && |batch| <= MAX_ROUTES
    && Written(messages, batches) && Flatten(batches) + batch == sent
  }

  lemma AppendEntry(sent: seq<Advert>, messages: seq<seq<byte>>, batches: seq<seq<Advert>>, payload: seq<byte>,
                    batch: seq<Advert>, a: Advert)
    requires Sending(sent, messages, batches, payload, batch) && |batch| < MAX_ROUTES
    ensures Sending(sent + [a], messages, batches, payload + EncodeEntry(a), batch + [a])
  {
    assert (batch + [a])[..|batch|] == batch;
    assert Flatten(batches) + (batch + [a]) == sent + [a];
  }

  lemma CloseBatch(sent: seq<Advert>, messages: seq<seq<byte>>, batches: seq<seq<Advert>>, payload: seq<byte>,
                   batch: seq<Advert>)
    requires Sending(sent, messages, batches, payload, batch) && batch != []
    ensures Sending(sent, messages + [payload], batches + [batch], HEADER, [])
  {
    assert (batches + [batch])[..|batches|] == batches;
    assert Message([]) == HEADER;
  }

  lemma AnnouncedNext(db: seq<Info>, i: nat, out: Iface)
    requires i < |db|
    ensures Announced(db[..i + 1], out) ==
            Announced(db[..i], out) + if Announces(db[i], out) then [AdvertOf(db[i])] else []
  {
    assert db[..i + 1][..i] == db[..i];
  }

  lemma SentIsRead(sent: seq<Advert>, messages: seq<seq<byte>>, batches: seq<seq<Advert>>)
    requires Sending(sent, messages, batches, HEADER, [])
    ensures ReadAll(messages) == sent && forall i :: 0 <= i < |messages| ==> Acceptable(messages[i])
  {
    WrittenIsRead(messages, batches);
  }

  /** `rip_send_update` with every send succeeding: no route is lost and none is invented. */
  method SendUpdate(db: seq<Info>, out: Iface) returns (messages: seq<seq<byte>>)
    ensures forall i :: 0 <= i < |messages| ==> Acceptable(messages[i])
    ensures ReadAll(messages) == Announced(db, out)
    ensures exists slots :: AnnouncesSlots(ReadAll(messages), db, out, slots)
  {
    messages := [];
    var payload, entries := HEADER, 0;
    ghost var batch: seq<Advert>, batches: seq<seq<Advert>> := [], [];
    assert Message([]) == HEADER;
    for i := 0 to |db|
      invariant entries == |batch| < MAX_ROUTES
      invariant Sending(Announced(db[..i], out), messages, batches, payload, batch)
    {
      AnnouncedNext(db, i, out);
      if !db[i].valid { continue; }
      if db[i].learnedOn == out { continue; }
      var a := AdvertOf(db[i]);
      AppendEntry(Announced(db[..i], out), messages, batches, payload, batch, a);
      payload := payload + EncodeEntry(a);
      entries := entries + 1;
      batch := batch + [a];
      if entries == MAX_ROUTES {
        CloseBatch(Announced(db[..i + 1], out), messages, batches, payload, batch);
        messages, batches := messages + [payload], batches + [batch];
        payload, entries, batch := HEADER, 0, [];
      }
    }
    assert db[..|db|] == db;
    if entries > 0 {
      CloseBatch(Announced(db, out), messages, batches, payload, batch);
      messages, batches := messages + [payload], batches + [batch];
    }
    SentIsRead(Announced(db, out), messages, batches);
    ghost var slots := AnnouncedSlots(db, out);
  }

  /** Nothing that was learned on the output interface is announced there. */
  lemma NothingBack(adverts: seq<Advert>, db: seq<Info>, out: Iface, slots: seq<nat>, i: nat, k: nat)
    requires GoodDb(db) && AnnouncesSlots(adverts, db, out, slots)
    requires i < |adverts| && k < |db| && db[k].valid && db[k].learnedOn == out
    ensures !(adverts[i].prefix == db[k].prefix && adverts[i].mask == PrefixMask(db[k].len))
  {
    var j := slots[i];
    assert j in slots && IsTold(db, out, j);
    assert GoodInfo(db[j]) && GoodInfo(db[k]);
    if adverts[i].prefix == db[k].prefix && adverts[i].mask == PrefixMask(db[k].len) {
      MaskInjective(db[j].len, db[k].len);
      NetSlotUnique(db, db[k].prefix, db[k].len, k);
      NetSlotUnique(db, db[k].prefix, db[k].len, j);
    }
  }
}
