/** Which of several routes to one network is used: protocols in order of preference, and ties to the first comer. */
module RoutePreference {
  import opened NetTypes
  import opened Slots
  import opened Prefix
  import opened RouteTables

  /** The known protocols, most preferred first; every other protocol comes after them. */
  const PREFERENCE: seq<byte> := [DIRECT, STATIC, BGP, OSPF, ISIS, RIP]

  /** The place of a protocol in that order. */
  function Rank(proto: byte): (r: nat)
    ensures r <= |PREFERENCE|
    ensures if r < |PREFERENCE| then PREFERENCE[r] == proto else proto !in PREFERENCE
  {
    if proto == DIRECT then 0
    else if proto == STATIC then 1
    else if proto == BGP then 2
    else if proto == OSPF then 3
    else if proto == ISIS then 4
    else if proto == RIP then 5
    else 6
  }

  lemma DistanceIsRank(p: byte, q: byte)
    ensures AdminDistance(p) <= AdminDistance(q) <==> Rank(p) <= Rank(q)
  {
  }

  /** A destination is never answered by a protocol less preferred than one with a route to the same longest network:
      never by another one where a direct route exists, and so on down the order. */
  lemma PreferredProtocolAnswers(rib: seq<RibEntry>, dst: u32, k: nat)
    requires WellFormed(rib) && k < |rib| && rib[k].valid && Matches(dst, rib[k].prefix, rib[k].len)
    ensures LookupSpec(rib, dst).Some?
    ensures var answer := LookupSpec(rib, dst).value;
            rib[k].len <= answer.len && (rib[k].len == answer.len ==> Rank(answer.proto) <= Rank(rib[k].proto))
  {
    LookupFindsBest(rib, dst);
    var i := BestFrom(rib, dst, 32);
    assert IsBest(rib, dst, i);
    DistanceIsRank(rib[i].proto, rib[k].proto);
  }

  /** The answer is a stored route, copied as it stands. */
  lemma AnswerIsStored(rib: seq<RibEntry>, dst: u32)
    requires WellFormed(rib) && LookupSpec(rib, dst).Some?
    ensures var f := LookupSpec(rib, dst).value;
            && f.ribIndex < |rib| && IsBest(rib, dst, f.ribIndex)
            && var e := rib[f.ribIndex];
               f.valid && f.prefix == e.prefix && f.len == e.len && f.proto == e.proto && f.nextHop == e.nextHop &&
               f.iface == e.iface && f.metric == e.metric
  {
    LookupFindsBest(rib, dst);
  }

  // ---------- Insertion numbers ----------

  /** Stored routes carry different numbers, all below the next one. */
  ghost predicate Numbered(rib: seq<RibEntry>, seqNo: u32) {
    && (forall i :: 0 <= i < |rib| && rib[i].valid ==> rib[i].sequence < seqNo)
    && (forall i, j :: 0 <= i < j < |rib| && rib[i].valid && rib[j].valid ==> rib[i].sequence != rib[j].sequence)
  }

  lemma AddNumbers(rib: seq<RibEntry>, seqNo: u32, key: RouteKey, nextHop: u32, iface: Iface, metric: u32)
    requires Numbered(rib, seqNo) && seqNo + 1 < TWO32
    ensures var r, next := AddRib(rib, seqNo, key, nextHop, iface, metric), NextSequence(rib, seqNo, key);
            && seqNo <= next <= seqNo + 1 && Numbered(if r.Some? then r.value else rib, next)
  {
    var r, next := AddRib(rib, seqNo, key, nextHop, iface, metric), NextSequence(rib, seqNo, key);
    if r.Some? {
      var t := if KeySlot(rib, key) >= 0 then KeySlot(rib, key) else FreeSlot(rib);
      assert forall i :: 0 <= i < |rib| && i != t ==> r.value[i] == rib[i];
    }
  }

  lemma OpNumbers(rib: seq<RibEntry>, seqNo: u32, op: RibOp)
    requires Numbered(rib, seqNo) && seqNo + 1 < TWO32
    ensures var (rib', seqNo') := ApplyOp(rib, seqNo, op); seqNo <= seqNo' <= seqNo + 1 && Numbered(rib', seqNo')
  {
    match op
    case OpAdd(prefix, len, nextHop, iface, metric, proto) =>
      AddNumbers(rib, seqNo, RouteKey(Masked(prefix, len), len, proto), nextHop, iface, metric);
    case OpDelete(_, _, _) =>
    case OpFlush(_) =>
  }

  /** Until the counter wraps, no two routes tie: at equal distance and metric the one inserted first is used. */
  lemma {:induction false} HistoryNumbers(size: nat, ops: seq<RibOp>)
    requires |ops| + 1 < TWO32
    ensures var (rib, seqNo) := ApplyOps(seq(size, _ => EMPTY_RIB), 1, ops); Numbered(rib, seqNo) && seqNo <= |ops| + 1
  {
    if ops != [] {
      HistoryNumbers(size, ops[..|ops| - 1]);
      var (before, seqNo) := ApplyOps(seq(size, _ => EMPTY_RIB), 1, ops[..|ops| - 1]);
      OpNumbers(before, seqNo, ops[|ops| - 1]);
    }
  }

  /** So the answer is strictly better than every other route to the same network. */
  lemma NoTies(rib: seq<RibEntry>, seqNo: u32, dst: u32, k: nat)
    requires WellFormed(rib) && Numbered(rib, seqNo) && LookupSpec(rib, dst).Some?
    requires k < |rib| && rib[k].valid && Matches(dst, rib[k].prefix, rib[k].len)
    requires rib[k].len == LookupSpec(rib, dst).value.len && k != LookupSpec(rib, dst).value.ribIndex
    ensures !NoWorse(rib[k], rib[LookupSpec(rib, dst).value.ribIndex])
  {
    LookupFindsBest(rib, dst);
    var i := BestFrom(rib, dst, 32);
    assert IsBest(rib, dst, i) && NoWorse(rib[i], rib[k]);
  }
}
