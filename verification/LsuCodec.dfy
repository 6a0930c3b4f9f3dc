/** The simplified link-state update body: what flooding writes and what reception accepts. */
module LsuCodec {
  import opened NetTypes
  import opened OspfTypes

  const LSU_HDR: nat := 4
  const LSA_HDR: nat := 16
  const LINK_LEN: nat := 12

  // ---------- Writing ----------

  function EncodeLink(l: Link): (b: seq<byte>)
    ensures |b| == LINK_LEN
  {
    Put32(l.linkId) + Put32(l.linkData) + [l.kind, l.numTos] + Put16(l.metric)
  }

  function EncodeLinks(links: seq<Link>): (b: seq<byte>)
    ensures |b| == LINK_LEN * |links|
  {
    if links == [] then [] else EncodeLink(links[0]) + EncodeLinks(links[1..])
  }

  function EncodeHead(a: Lsa): (b: seq<byte>)
    requires WellFormedLsa(a)
    ensures |b| == LSA_HDR
  {
    Put32(a.lsaId) + Put32(a.advRouter) + Put32(a.seqNum) + Put16(a.checksum) + [a.lsaType, |a.links|]
  }

  function LsaLen(a: Lsa): nat {
    LSA_HDR + LINK_LEN * |a.links|
  }

  function EncodeLsa(a: Lsa): (b: seq<byte>)
    requires WellFormedLsa(a)
    ensures |b| == LsaLen(a)
  {
    EncodeHead(a) + EncodeLinks(a.links)
  }

  predicate AllWellFormed(lsas: seq<Lsa>) {
    forall i :: 0 <= i < |lsas| ==> WellFormedLsa(lsas[i])
  }

  function EncodeAll(lsas: seq<Lsa>): seq<byte>
    requires AllWellFormed(lsas)
  {
    if lsas == [] then [] else EncodeLsa(lsas[0]) + EncodeAll(lsas[1..])
  }

  /** The body written by `ospf_flood_lsa`: one advertisement, reserved field zero. */
  function FloodBody(a: Lsa): seq<byte>
    requires WellFormedLsa(a)
  {
    Put16(1) + Put16(0) + EncodeLsa(a)
  }

  const LINK_EXAMPLE := Link(0x0A00_0003, 0xC0A8_0001, 1, 0, 10)
  const LSA_EXAMPLE := Lsa(0x0A00_0001, 0x0A00_0002, 0x8000_0001, 0x1234, 1, [LINK_EXAMPLE])

  lemma LinkExample()
    ensures EncodeLink(LINK_EXAMPLE) == [10, 0, 0, 3, 192, 168, 0, 1, 1, 0, 0, 10]
  {
    assert Put32(0x0A00_0003) == [10, 0, 0, 3] && Put32(0xC0A8_0001) == [192, 168, 0, 1];
  }

  lemma HeadExample()
    ensures EncodeHead(LSA_EXAMPLE) == [10, 0, 0, 1, 10, 0, 0, 2, 0x80, 0, 0, 1, 0x12, 0x34, 1, 1]
  {
    assert Put32(0x0A00_0001) == [10, 0, 0, 1] && Put32(0x0A00_0002) == [10, 0, 0, 2];
    assert Put32(0x8000_0001) == [0x80, 0, 0, 1] && Put16(0x1234) == [0x12, 0x34];
  }

  /** How an advertisement with one link lies in the body that floods it. */
  lemma FloodBodyExample()
    ensures FloodBody(LSA_EXAMPLE) ==
            [0, 1] + [0, 0] + ([10, 0, 0, 1, 10, 0, 0, 2, 0x80, 0, 0, 1, 0x12, 0x34, 1, 1] +
                               [10, 0, 0, 3, 192, 168, 0, 1, 1, 0, 0, 10])
  {
    HeadExample();
    LinkExample();
    OneLink(LINK_EXAMPLE);
    assert Put16(1) == [0, 1] && Put16(0) == [0, 0];
  }

  lemma OneLink(link: Link)
    ensures EncodeLinks([link]) == EncodeLink(link)
  {
    assert [link][1..] == [];
    assert EncodeLink(link) + [] == EncodeLink(link);
  }

  // ---------- Reading ----------

  function DecodeLink(b: seq<byte>): Link
    requires |b| >= LINK_LEN
  {
    Link(Get32(b), Get32(b[4..]), b[8], b[9], Get16(b[10..]))
  }

  /** Reading a link inverts writing it, in both directions. */
  lemma LinkRoundTrip(l: Link, b: seq<byte>, tail: seq<byte>)
    requires |b| >= LINK_LEN
    ensures DecodeLink(EncodeLink(l) + tail) == l
    ensures EncodeLink(DecodeLink(b)) == b[..LINK_LEN]
  {
    var w := EncodeLink(l) + tail;
    Field32RoundTrip(l.linkId, b[..4], w[4..]);
    Field32RoundTrip(l.linkData, b[4..8], w[8..]);
    Field16RoundTrip(l.metric, b[10..12], tail);
    assert w == Put32(l.linkId) + w[4..] && w[4..] == Put32(l.linkData) + w[8..] && w[10..] == Put16(l.metric) + tail;
  }

  function DecodeLinks(b: seq<byte>, n: nat): (r: seq<Link>)
    requires |b| >= LINK_LEN * n
    ensures |r| == n
    decreases n
  {
    if n == 0 then [] else [DecodeLink(b)] + DecodeLinks(b[LINK_LEN..], n - 1)
  }

  lemma {:induction false} LinksWritten(links: seq<Link>, tail: seq<byte>)
    ensures DecodeLinks(EncodeLinks(links) + tail, |links|) == links
  {
    if links != [] {
      var w, rest := EncodeLinks(links) + tail, EncodeLinks(links[1..]) + tail;
      assert w == EncodeLink(links[0]) + rest;
      LinkRoundTrip(links[0], w, rest);
      LinksWritten(links[1..], tail);
      assert w[LINK_LEN..] == rest;
    }
  }

  lemma {:induction false} LinksRead(b: seq<byte>, n: nat)
    requires |b| >= LINK_LEN * n
    ensures EncodeLinks(DecodeLinks(b, n)) == b[..LINK_LEN * n]
    decreases n
  {
    if n > 0 {
      var rest := DecodeLinks(b[LINK_LEN..], n - 1);
      LinkRoundTrip(DecodeLink(b), b, []);
      LinksRead(b[LINK_LEN..], n - 1);
      assert DecodeLinks(b, n)[1..] == rest;
      TakeTwice(b, LINK_LEN, LINK_LEN * (n - 1));
    }
  }

  lemma TakeTwice(b: seq<byte>, k: nat, m: nat)
    requires k + m <= |b|
    ensures b[..k + m] == b[..k] + b[k..][..m]
  {
  }

  /** One advertisement at the cursor; None is a rejection of the whole packet. */
  function ParseLsa(b: seq<byte>): (r: Option<Lsa>)
    ensures r.Some? ==> WellFormedLsa(r.value) && LsaLen(r.value) <= |b|
  {
    if |b| < LSA_HDR then None
    else
      var count := b[15];
      if count > MAX_LSA_LINKS || |b| - LSA_HDR < LINK_LEN * count then None
      else
        Some(Lsa(Get32(b), Get32(b[4..]), Get32(b[8..]), Get16(b[12..]), b[14], DecodeLinks(b[LSA_HDR..], count)))
  }

  lemma HeadWritten(a: Lsa, tail: seq<byte>)
    requires WellFormedLsa(a)
    ensures var w := EncodeHead(a) + tail;
            && Get32(w) == a.lsaId && Get32(w[4..]) == a.advRouter && Get32(w[8..]) == a.seqNum
            && Get16(w[12..]) == a.checksum && w[14] == a.lsaType && w[15] == |a.links| && w[LSA_HDR..] == tail
  {
    var w := EncodeHead(a) + tail;
    HeadFields(a, tail, w);
    Field32RoundTrip(a.lsaId, Put32(0), w[4..]);
    Field32RoundTrip(a.advRouter, Put32(0), w[8..]);
    Field32RoundTrip(a.seqNum, Put32(0), w[12..]);
    Field16RoundTrip(a.checksum, Put16(0), w[14..]);
  }

  lemma HeadFields(a: Lsa, tail: seq<byte>, w: seq<byte>)
    requires WellFormedLsa(a) && w == EncodeHead(a) + tail
    ensures w == Put32(a.lsaId) + w[4..] && w[4..] == Put32(a.advRouter) + w[8..]
    ensures w[8..] == Put32(a.seqNum) + w[12..] && w[12..] == Put16(a.checksum) + w[14..]
    ensures w[14] == a.lsaType && w[15] == |a.links| && w[LSA_HDR..] == tail
  {
  }

  lemma HeadRead(b: seq<byte>, a: Lsa)
    requires |b| >= LSA_HDR && WellFormedLsa(a)
    requires a == Lsa(Get32(b), Get32(b[4..]), Get32(b[8..]), Get16(b[12..]), b[14], a.links) && b[15] == |a.links|
    ensures EncodeHead(a) == b[..LSA_HDR]
  {
    Field32RoundTrip(0, b[..4], []);
    Field32RoundTrip(0, b[4..8], []);
    Field32RoundTrip(0, b[8..12], []);
    Field16RoundTrip(0, b[12..14], []);
    assert Get32(b[..4]) == Get32(b) && Get32(b[4..8]) == Get32(b[4..]) && Get32(b[8..12]) == Get32(b[8..]);
    assert Get16(b[12..14]) == Get16(b[12..]);
  }

  /** The parser returns an advertisement exactly when its encoding lies at the cursor. */
  lemma LsaIff(b: seq<byte>, a: Lsa)
    ensures ParseLsa(b) == Some(a) <==> WellFormedLsa(a) && LsaLen(a) <= |b| && EncodeLsa(a) == b[..LsaLen(a)]
  {
    if WellFormedLsa(a) && LsaLen(a) <= |b| && EncodeLsa(a) == b[..LsaLen(a)] { LsaWritten(b, a, b[LsaLen(a)..]); }
    if ParseLsa(b) == Some(a) { LsaRead(b, a); }
  }

  lemma LsaWritten(b: seq<byte>, a: Lsa, tail: seq<byte>)
    requires WellFormedLsa(a) && b == EncodeLsa(a) + tail
    ensures ParseLsa(b) == Some(a)
  {
    HeadWritten(a, EncodeLinks(a.links) + tail);
    assert b == EncodeHead(a) + (EncodeLinks(a.links) + tail);
    LinksWritten(a.links, tail);
  }

  lemma LsaRead(b: seq<byte>, a: Lsa)
    requires ParseLsa(b) == Some(a)
    ensures EncodeLsa(a) == b[..LsaLen(a)]
  {
    HeadRead(b, a);
    LinksRead(b[LSA_HDR..], |a.links|);
    assert b[..LSA_HDR] + b[LSA_HDR..][..LINK_LEN * |a.links|] == b[..LsaLen(a)];
  }

  function Prepend(front: seq<Lsa>, r: Option<seq<Lsa>>): Option<seq<Lsa>> {
    if r.None? then None else Some(front + r.value)
  }

  lemma PrependLaws(front: seq<Lsa>, a: Lsa, r: Option<seq<Lsa>>)
    ensures Prepend([], r) == r && Prepend(front, Some([])) == Some(front)
    ensures Prepend(front, Prepend([a], r)) == Prepend(front + [a], r)
  {
    assert front + [] == front;
    if r.Some? {
      assert [] + r.value == r.value;
      assert front + ([a] + r.value) == (front + [a]) + r.value;
    }
  }

  /** `n` advertisements and nothing else. */
  function ParseAll(b: seq<byte>, n: nat): Option<seq<Lsa>>
    decreases n
  {
    if n == 0 then (if b == [] then Some([]) else None)
    else
      var a := ParseLsa(b);
      if a.None? then None else Prepend([a.value], ParseAll(b[LsaLen(a.value)..], n - 1))
  }

  lemma EncodeAllCons(a: Lsa, lsas: seq<Lsa>)
    requires WellFormedLsa(a) && AllWellFormed(lsas)
    ensures AllWellFormed([a] + lsas) && EncodeAll([a] + lsas) == EncodeLsa(a) + EncodeAll(lsas)
  {
    assert ([a] + lsas)[1..] == lsas;
  }

  ghost predicate IsEncoding(b: seq<byte>, lsas: seq<Lsa>) {
    AllWellFormed(lsas) && b == EncodeAll(lsas)
  }

  lemma IsEncodingCons(b: seq<byte>, a: Lsa, lsas: seq<Lsa>)
    requires ParseLsa(b) == Some(a) && IsEncoding(b[LsaLen(a)..], lsas)
    ensures IsEncoding(b, [a] + lsas)
  {
    LsaIff(b, a);
    EncodeAllCons(a, lsas);
    assert b == b[..LsaLen(a)] + b[LsaLen(a)..];
  }

  lemma {:induction false} AllRead(b: seq<byte>, n: nat, lsas: seq<Lsa>)
    requires ParseAll(b, n) == Some(lsas)
    ensures |lsas| == n && IsEncoding(b, lsas)
    decreases n
  {
    if n > 0 {
      var a := ParseLsa(b).value;
      var tail := ParseAll(b[LsaLen(a)..], n - 1).value;
      AllRead(b[LsaLen(a)..], n - 1, tail);
      IsEncodingCons(b, a, tail);
    }
  }

  lemma {:induction false} AllWritten(lsas: seq<Lsa>)
    requires AllWellFormed(lsas)
    ensures ParseAll(EncodeAll(lsas), |lsas|) == Some(lsas)
  {
    if lsas != [] {
      var a, rest := lsas[0], lsas[1..];
      assert lsas == [a] + rest;
      EncodeAllCons(a, rest);
      assert EncodeAll(lsas)[..LsaLen(a)] == EncodeLsa(a);
      LsaIff(EncodeAll(lsas), a);
      AllWritten(rest);
      assert EncodeAll(lsas)[LsaLen(a)..] == EncodeAll(rest);
    }
  }

  /** The LSU branch of `ospf_receive` up to the merge. */
  function ParseBody(body: seq<byte>): Option<seq<Lsa>> {
    if |body| < LSU_HDR || Get16(body) > LSDB_SIZE then None
    else ParseAll(body[LSU_HDR..], Get16(body))
  }

  /** Accepted exactly: a count of at most 256, then that many well-formed advertisements and no byte more. */
  lemma ParseIff(body: seq<byte>, lsas: seq<Lsa>)
    ensures ParseBody(body) == Some(lsas) <==>
            && |body| >= LSU_HDR && Get16(body) == |lsas| <= LSDB_SIZE
            && AllWellFormed(lsas) && body[LSU_HDR..] == EncodeAll(lsas)
  {
    if ParseBody(body) == Some(lsas) { AllRead(body[LSU_HDR..], Get16(body), lsas); }
    if AllWellFormed(lsas) { AllWritten(lsas); }
  }

  /** What flooding writes is read back as the flooded advertisement. */
  lemma FloodRoundTrip(a: Lsa)
    requires WellFormedLsa(a)
    ensures ParseBody(FloodBody(a)) == Some([a])
  {
    var w := FloodBody(a);
    assert w[LSU_HDR..] == EncodeLsa(a);
    assert EncodeAll([a]) == EncodeLsa(a) + EncodeAll([a][1..]) == EncodeLsa(a);
    ParseIff(w, [a]);
  }

  /** The parsing loops of `ospf_receive`; `rest` in the loop below is the cursor with the bytes remaining. */
  method ParseLoop(body: seq<byte>) returns (r: Option<seq<Lsa>>)
    ensures r == ParseBody(body)
  {
    if |body| < LSU_HDR { return None; }
    var count := Get16(body);
    if count > LSDB_SIZE { return None; }
    r := AllAt(body[LSU_HDR..], count);
  }

  method AllAt(b: seq<byte>, count: nat) returns (r: Option<seq<Lsa>>)
    ensures r == ParseAll(b, count)
  {
    ghost var goal := ParseAll(b, count);
    var parsed: seq<Lsa> := [];
    var rest := b;
    PrependLaws([], Lsa(0, 0, 0, 0, 0, []), goal);
    for i := 0 to count
      invariant Prepend(parsed, ParseAll(rest, count - i)) == goal
    {
      var a := LsaAt(rest);
      if a.None? { return None; }
      PrependLaws(parsed, a.value, ParseAll(rest[LsaLen(a.value)..], count - i - 1));
      rest := rest[LsaLen(a.value)..];
      parsed := parsed + [a.value];
    }
    PrependLaws(parsed, Lsa(0, 0, 0, 0, 0, []), None);
    if rest != [] { return None; }
    r := Some(parsed);
  }

  /** One round of the parsing loop: the fixed part, then as many links as it announces. */
  method LsaAt(b: seq<byte>) returns (r: Option<Lsa>)
    ensures r == ParseLsa(b)
  {
    if |b| < LSA_HDR { return None; }
    var count := b[15];
    if count > MAX_LSA_LINKS { return None; }
    if |b| - LSA_HDR < count * LINK_LEN { return None; }
    var wire := b[LSA_HDR..];
    var links := LinksAt(wire, count);
    r := Some(Lsa(Get32(b), Get32(b[4..]), Get32(b[8..]), Get16(b[12..]), b[14], links));
  }

  method LinksAt(wire: seq<byte>, count: nat) returns (links: seq<Link>)
    requires |wire| >= LINK_LEN * count
    ensures links == DecodeLinks(wire, count)
  {
    links := [];
    var at := 0;
    for j := 0 to count
      invariant 0 <= at && at + LINK_LEN * (count - j) <= |wire|
      invariant links + DecodeLinks(wire[at..], count - j) == DecodeLinks(wire, count)
    {
      NextLink(wire, at, count - j, links);
      links := links + [DecodeLink(wire[at..])];
      at := at + LINK_LEN;
    }
  }

  lemma NextLink(wire: seq<byte>, at: nat, n: nat, links: seq<Link>)
    requires n > 0 && at + LINK_LEN * n <= |wire|
    ensures links + DecodeLinks(wire[at..], n) ==
            links + [DecodeLink(wire[at..])] + DecodeLinks(wire[at + LINK_LEN..], n - 1)
  {
    assert wire[at..][LINK_LEN..] == wire[at + LINK_LEN..];
  }
}
