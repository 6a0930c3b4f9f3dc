/** The forwarding path of a router: header check, time to live, lookup and checksum rewrite. */
module Forwarding {
  import opened NetTypes
  import opened Prefix
  import opened RouteTables
  import opened Checksums

  const IP_HDR_LEN: nat := 20

  /** A router as the forwarding path sees it: its own addresses and its routing table. */
  datatype Router = Router(addresses: set<u32>, rib: seq<RibEntry>)

  datatype Verdict =
    | Rejected                                        // header check failed
    | Local                                           // handed to the router's own stack
    | Expired                                         // time exceeded
    | NoRoute                                         // network unreachable
    | Forwarded(packet: seq<byte>, target: u32, iface: Iface)

  function Ttl(p: seq<byte>): byte
    requires |p| >= IP_HDR_LEN
  {
    p[8]
  }

  function Destination(p: seq<byte>): u32
    requires |p| >= IP_HDR_LEN
  {
    Get32(p[16..])
  }

  /** `ip_validate_header`. */
  predicate ValidHeader(p: seq<byte>) {
    |p| >= IP_HDR_LEN && p[0] / 16 == 4 && p[0] % 16 == 5 && Checksum(p[..IP_HDR_LEN]) == 0
  }

  predicate ControlMulticast(dst: u32) {
    dst == 0xE000_0005 || dst == 0xE000_0006
  }

  /** The packet with its time to live lowered and its checksum recomputed. */
  function Lowered(p: seq<byte>): (r: seq<byte>)
    requires |p| >= IP_HDR_LEN && Ttl(p) >= 1
    ensures |r| == |p|
  {
    var q := WithWord(p[8 := p[8] - 1], 10, 0);
    WithWord(q, 10, Checksum(q[..IP_HDR_LEN]))
  }

  /** `router_receive` up to the hand-over to ARP and Ethernet. */
  function RouterReceive(r: Router, p: seq<byte>): Verdict {
    if !ValidHeader(p) then Rejected
    else
      var dst := Destination(p);
      if dst in r.addresses || ControlMulticast(dst) then Local
      else if Ttl(p) <= 1 then Expired
      else
        var route := LookupSpec(r.rib, dst);
        if route.None? then NoRoute
        else Forwarded(Lowered(p), if route.value.nextHop != 0 then route.value.nextHop else dst, route.value.iface)
  }

  /** Version 4, no options, and header words that add up to a multiple of 65535. */
  ghost predicate SoundHeader(p: seq<byte>) {
    |p| >= 20 && p[0] == 0x45 && WordSum(p[..20]) % 0xFFFF == 0
  }

  /** One of the router's own addresses, 224.0.0.5 or 224.0.0.6. */
  ghost predicate ForRouter(r: Router, p: seq<byte>)
    requires |p| >= 20
  {
    Destination(p) in r.addresses || p[16..20] == [224, 0, 0, 5] || p[16..20] == [224, 0, 0, 6]
  }

  lemma HeaderIff(p: seq<byte>)
    ensures ValidHeader(p) <==> SoundHeader(p)
  {
    if |p| >= 20 && p[0] == 0x45 {
      var head := p[..20];
      VerifiesIff(head);
      assert WordSum(head) == Get16(head) + WordSum(head[2..]);
    }
  }

  lemma AddressBytes(p: seq<byte>, a: u32)
    requires |p| >= 20
    ensures Destination(p) == a <==> p[16..20] == Put32(a)
  {
    var b := p[16..20];
    assert b == p[16..][..4] && Get32(p[16..]) == Get32(b);
    Field32RoundTrip(a, b, []);
    assert Put32(a) + [] == Put32(a);
  }

  lemma ForRouterIff(r: Router, p: seq<byte>)
    requires |p| >= 20
    ensures ForRouter(r, p) <==> Destination(p) in r.addresses || ControlMulticast(Destination(p))
  {
    AddressBytes(p, 0xE000_0005);
    AddressBytes(p, 0xE000_0006);
    assert Put32(0xE000_0005) == [224, 0, 0, 5] && Put32(0xE000_0006) == [224, 0, 0, 6];
  }

  /** Some stored route matches the destination. */
  ghost predicate HasRoute(r: Router, p: seq<byte>)
    requires |p| >= 20
  {
    exists k :: 0 <= k < |r.rib| && r.rib[k].valid && Matches(Destination(p), r.rib[k].prefix, r.rib[k].len)
  }

  /** When each verdict is given, and where a forwarded packet goes: to the next hop of a best route, or to its
      destination itself if that names none, over the interface of that route. */
  lemma VerdictIff(r: Router, p: seq<byte>, v: Verdict)
    requires WellFormed(r.rib) && v == RouterReceive(r, p)
    ensures v.Rejected? <==> !SoundHeader(p)
    ensures v.Local? <==> SoundHeader(p) && ForRouter(r, p)
    ensures v.Expired? <==> SoundHeader(p) && !ForRouter(r, p) && p[8] <= 1
    ensures v.NoRoute? <==> SoundHeader(p) && !ForRouter(r, p) && p[8] > 1 && !HasRoute(r, p)
    ensures v.Forwarded? <==> SoundHeader(p) && !ForRouter(r, p) && p[8] > 1 && HasRoute(r, p)
    ensures v.Forwarded? ==>
              exists i :: IsBest(r.rib, Destination(p), i) && v.iface == r.rib[i].iface &&
                          v.target == if r.rib[i].nextHop != 0 then r.rib[i].nextHop else Destination(p)
  {
    HeaderIff(p);
    if SoundHeader(p) {
      ForRouterIff(r, p);
      LookupFindsBest(r.rib, Destination(p));
      if v.Forwarded? { assert IsBest(r.rib, Destination(p), BestFrom(r.rib, Destination(p), 32)); }
    }
  }

  /** Whatever is forwarded still passes the header check, with one hop less to live and all else unchanged. */
  lemma ForwardedIsValid(r: Router, p: seq<byte>)
    requires RouterReceive(r, p).Forwarded?
    ensures var q := RouterReceive(r, p).packet;
            && ValidHeader(q) && |q| == |p| && Ttl(q) == Ttl(p) - 1 && Destination(q) == Destination(p)
            && forall i :: 0 <= i < |p| && i != 8 && i != 10 && i != 11 ==> q[i] == p[i]
  {
    var mid := WithWord(p[8 := p[8] - 1], 10, 0);
    var q := Lowered(p);
    var head := mid[..IP_HDR_LEN];
    WrittenChecksumVerifies(head, 10);
    assert q[..IP_HDR_LEN] == WithWord(head, 10, Checksum(head));
    assert q[16..] == p[16..];
  }

  /** The packet after being forwarded by every router on a route, or None if one of them does not forward it. */
  function Travel(p: seq<byte>, route: seq<Router>): Option<seq<byte>> {
    if route == [] then Some(p)
    else
      var before := Travel(p, route[..|route| - 1]);
      if before.None? then None
      else
        var v := RouterReceive(route[|route| - 1], before.value);
        if v.Forwarded? then Some(v.packet) else None
  }

  /** Under any tables, looping ones included, a packet is forwarded fewer times than its initial time to live. */
  lemma {:induction false} ForwardingTerminates(p: seq<byte>, route: seq<Router>)
    requires Travel(p, route).Some? && route != []
    ensures |p| >= IP_HDR_LEN && |route| <= Ttl(p) - 1
    ensures var q := Travel(p, route).value;
            ValidHeader(q) && |q| == |p| && Ttl(q) == Ttl(p) - |route| && Destination(q) == Destination(p)
  {
    var front := route[..|route| - 1];
    if front != [] { ForwardingTerminates(p, front); }
    ForwardedIsValid(route[|route| - 1], Travel(p, front).value);
  }

  /** The rewrite on the packet buffer itself. */
  method RewriteHeader(pkt: array<byte>)
    requires pkt.Length >= IP_HDR_LEN && pkt[8] >= 1
    modifies pkt
    ensures pkt[..] == Lowered(old(pkt[..]))
  {
    ghost var p := pkt[..];
    pkt[8] := pkt[8] - 1;
    pkt[10], pkt[11] := 0, 0;
    ghost var mid := WithWord(p[8 := p[8] - 1], 10, 0);
    assert pkt[..] == mid;
    assert pkt[..IP_HDR_LEN] == mid[..IP_HDR_LEN];
    var c := ChecksumLoop(pkt[..IP_HDR_LEN]);
    pkt[10], pkt[11] := c / 0x100, c % 0x100;
    assert pkt[..] == WithWord(mid, 10, c);
  }

  /** The forwarding branch: the packet buffer is changed exactly when the packet is forwarded. */
  method Forward(addresses: set<u32>, table: RouteTable, pkt: array<byte>) returns (v: Verdict)
    requires table.Valid()
    modifies pkt
    ensures v == RouterReceive(Router(addresses, table.rib[..]), old(pkt[..]))
    ensures pkt[..] == if v.Forwarded? then v.packet else old(pkt[..])
  {
    if pkt.Length < IP_HDR_LEN || pkt[0] / 16 != 4 || pkt[0] % 16 != 5 { return Rejected; }
    assert pkt[..][..IP_HDR_LEN] == pkt[..IP_HDR_LEN];
    var c := ChecksumLoop(pkt[..IP_HDR_LEN]);
    if c != 0 { return Rejected; }
    var dst := Get32(pkt[16..]);
    assert pkt[..][16..] == pkt[16..];
    if dst in addresses || ControlMulticast(dst) { return Local; }
    if pkt[8] <= 1 { return Expired; }
    var route := table.Lookup(dst);
    if route.None? { return NoRoute; }
    RewriteHeader(pkt);
    return Forwarded(pkt[..], if route.value.nextHop != 0 then route.value.nextHop else dst, route.value.iface);
  }
}
