/** Two TCP endpoints joined by a network that may lose, duplicate and reorder segments. */
module TcpNetwork {
  import opened NetTypes
  import opened TcpEndpoint

  /** An endpoint and its history: what it was asked to send, what it took, what it accepted. */
  datatype Peer = Peer(tcb: Tcb, begun: bool, released: bool,
                       passed: seq<byte>, taken: seq<byte>, finSent: bool,
                       accepted: seq<byte>, synAccepted: bool, finAccepted: bool)

  const IDLE := Peer(RELEASED, false, false, [], [], false, [], false, false)

  /** What can happen at one endpoint. A segment that arrives was sent by the other side at some time. */
  datatype Event =
    | ActiveOpen
    | PassiveOpen
    | AppSend(data: seq<byte>)
    | AppClose
    | Arrive(seg: Segment)
    | RetransmitTimer
    | TimeWaitTimer

  ghost function Flag(b: bool): nat {
    if b then 1 else 0
  }

  /** Sequence numbers used so far: SYN, data, FIN. */
  ghost function Used(x: Peer): nat {
    Flag(x.begun) + |x.taken| + Flag(x.finSent)
  }

  /** Sequence numbers accepted so far from the other side. */
  ghost function Taken(x: Peer): nat {
    Flag(x.synAccepted) + |x.accepted| + Flag(x.finAccepted)
  }

  /** One incarnation, an arriving segment really sent, and fewer than 2^32 sequence numbers in all. */
  ghost predicate Enabled(x: Peer, e: Event, incoming: set<Segment>) {
    match e
    case ActiveOpen => !x.begun && !x.tcb.valid
    case PassiveOpen => !x.begun && !x.tcb.valid
    case AppSend(data) => x.tcb.valid && |x.taken| + |Chunk(data)| + 2 < TWO32
    case AppClose => x.tcb.valid
    case Arrive(seg) => x.tcb.valid && seg in incoming
    case RetransmitTimer => x.tcb.valid
    case TimeWaitTimer => x.tcb.valid
  }

  /** The endpoint after an event, and the segments it sends; IP output succeeds. */
  ghost function Step(x: Peer, e: Event): (Peer, seq<Segment>) {
    match e
    case ActiveOpen =>
      var r := Connect(true);
      (x.(tcb := r.tcb, begun := true), r.sent)
    case PassiveOpen => (x.(tcb := LISTENING), [])
    case AppSend(data) =>
      var r := Send(x.tcb, data, true);
      (if r.ok then x.(tcb := r.tcb, passed := x.passed + data, taken := x.taken + Chunk(data)) else x.(tcb := r.tcb),
       r.sent)
    case AppClose =>
      var r := Close(x.tcb, true);
      (x.(tcb := r.tcb, finSent := x.finSent || r.ok), r.sent)
    case Arrive(seg) =>
      if x.tcb.state == Listen then AtListener(x, seg)
      else
        var r := Receive(x.tcb, seg, true);
        (After(x, r), r.sent)
    case RetransmitTimer => (x, Retransmit(x.tcb))
    case TimeWaitTimer => (x.(tcb := Expire(x.tcb), released := x.released || !Expire(x.tcb).valid), [])
  }

  /** A segment at a listener: the connection begins with a SYN, and anything else is dropped. */
  ghost function AtListener(x: Peer, seg: Segment): (Peer, seq<Segment>) {
    var r := Accept(seg, true);
    if r.ok then (x.(tcb := r.tcb, begun := true, synAccepted := true), r.sent) else (x, [])
  }

  /** The endpoint after a segment was processed with outcome `r`. */
  ghost function After(x: Peer, r: Outcome): Peer {
    var s, s' := x.tcb.state, r.tcb.state;
    x.(tcb := r.tcb, released := x.released || !r.tcb.valid,
       accepted := x.accepted + r.delivered,
       synAccepted := x.synAccepted || (s == SynSent && s' == Established),
       finAccepted := x.finAccepted || (s == Established && s' == CloseWait) || (s == FinWait2 && s' == TimeWait))
  }

  // ---------- The invariant, seen from one side ----------

  /** A segment sent by `x` tells the truth about `x`. */
  ghost predicate Truthful(x: Peer, seg: Segment) {
    && (seg.flags.ack ==> seg.ackNum <= Taken(x) && x.synAccepted)
    && (seg.flags.syn ==> seg.seqNum == 0 && seg.payload == [] && !seg.flags.fin && x.begun)
    && (seg.payload != [] ==> !seg.flags.fin && 1 <= seg.seqNum && IsAt(seg.payload, seg.seqNum - 1, x.taken))
    && (seg.flags.fin ==> x.finSent && seg.seqNum == 1 + |x.taken|)
  }

  ghost predicate IsAt(part: seq<byte>, at: nat, whole: seq<byte>) {
    at + |part| <= |whole| && whole[at..at + |part|] == part
  }

  /** The block agrees with the history. */
  ghost predicate Consistent(x: Peer) {
    && (x.tcb.valid <==> x.tcb == LISTENING || (x.begun && !x.released)) && (!x.tcb.valid ==> x.tcb == RELEASED)
    && (x.finSent ==> x.begun) && (x.taken != [] ==> x.begun)
    && (x.accepted != [] ==> x.synAccepted) && (x.finAccepted ==> x.synAccepted)
    && |x.taken| + 2 < TWO32
    && (x.tcb.valid ==>
          && Booked(x.tcb) && x.tcb.sndNxt == Used(x) && x.tcb.rcvNxt == Taken(x)
          && match x.tcb.state
             case Listen => x.tcb == LISTENING && !x.begun
             case SynSent => x.tcb.sndUna == 0 && Used(x) == 1 && Taken(x) == 0
             case SynReceived => x.tcb.sndUna == 0 && Used(x) == 1 && Taken(x) == 1
             case Established => x.tcb.sndUna >= 1 && x.synAccepted && !x.finSent && !x.finAccepted
             case CloseWait => x.tcb.sndUna >= 1 && !x.finSent && x.finAccepted
             case FinWait1 =>
               x.tcb.sndUna + 1 == x.tcb.sndNxt && x.finSent && x.synAccepted && !x.finAccepted && FinQueued(x.tcb)
             case FinWait2 => x.tcb.sndUna == x.tcb.sndNxt && x.finSent && x.synAccepted && !x.finAccepted
             case LastAck => x.tcb.sndUna + 1 == x.tcb.sndNxt && x.finSent && x.finAccepted && FinQueued(x.tcb)
             case TimeWait => x.tcb.sndUna == x.tcb.sndNxt && x.finSent && x.finAccepted
             case _ => false)
    && (!x.begun ==> !x.synAccepted)
    && (x.released ==> x.begun && x.finSent && x.finAccepted)
  }

  ghost predicate FinQueued(t: Tcb) {
    t.slot.Some? && t.slot.value.segment.flags.fin
  }

  /** `y` has accepted a prefix of what `x` took, and `x` believes no more than that acknowledged. */
  ghost predicate Follows(y: Peer, x: Peer) {
    && (y.synAccepted ==> x.begun)
    && y.accepted <= x.taken
    && (y.finAccepted ==> x.finSent && y.accepted == x.taken)
    && (x.tcb.valid ==> x.tcb.sndUna <= Taken(y))
    && (x.released ==> y.finAccepted)
    && (x.taken != [] || x.finSent ==> y.synAccepted)
  }

  ghost predicate Wire(x: Peer, segs: set<Segment>) {
    && (forall seg :: seg in segs ==> Truthful(x, seg))
    && (x.tcb.valid && x.tcb.slot.Some? ==> x.tcb.slot.value.segment in segs)
  }

  /** The whole invariant for two endpoints and everything each ever sent. */
  ghost predicate Inv(x: Peer, y: Peer, fromX: set<Segment>, fromY: set<Segment>) {
    && Consistent(x) && Consistent(y) && Follows(x, y) && Follows(y, x) && Wire(x, fromX) && Wire(y, fromY)
  }

  ghost function SetOf(segs: seq<Segment>): set<Segment> {
    set s | s in segs
  }

  /** An event that only adds to the history keeps old segments truthful. */
  lemma TruthfulGrows(x: Peer, x': Peer, seg: Segment)
    requires Truthful(x, seg) && x.taken <= x'.taken && x.accepted <= x'.accepted
    requires (x.begun ==> x'.begun) && (x.synAccepted ==> x'.synAccepted) && (x.finAccepted ==> x'.finAccepted)
    requires x.finSent ==> x'.finSent && x'.taken == x.taken
    ensures Truthful(x', seg)
  {
    assert Taken(x) <= Taken(x');
    if seg.payload != [] {
      var at := seg.seqNum - 1;
      assert x'.taken[at..at + |seg.payload|] == x.taken[at..at + |seg.payload|];
    }
  }

  /** What an event must establish about the endpoint it happens at. */
  ghost predicate Advances(x: Peer, x': Peer) {
    && x.taken <= x'.taken && x.accepted <= x'.accepted
    && (x.begun ==> x'.begun) && (x.synAccepted ==> x'.synAccepted) && (x.finAccepted ==> x'.finAccepted)
    && (x.finSent ==> x'.finSent && x'.taken == x.taken)
  }

  /** The part of the invariant that concerns the two histories. */
  ghost predicate Agree(x: Peer, y: Peer) {
    Consistent(x) && Consistent(y) && Follows(x, y) && Follows(y, x)
  }

  lemma WireKeeps(x: Peer, x': Peer, fromX: set<Segment>, sent: seq<Segment>)
    requires Wire(x, fromX) && Advances(x, x')
    requires forall seg :: seg in sent ==> Truthful(x', seg)
    requires x'.tcb.valid && x'.tcb.slot.Some? ==>
               x'.tcb.slot.value.segment in sent || (x.tcb.valid && x.tcb.slot == x'.tcb.slot)
    ensures Wire(x', fromX + SetOf(sent))
  {
    forall seg | seg in fromX + SetOf(sent) ensures Truthful(x', seg) {
      if seg in fromX { TruthfulGrows(x, x', seg); }
    }
  }

  lemma OpenKeeps(x: Peer, y: Peer, fromX: set<Segment>, fromY: set<Segment>, e: Event)
    requires Inv(x, y, fromX, fromY) && Enabled(x, e, fromY) && (e.ActiveOpen? || e.PassiveOpen?)
    ensures var (x', sent) := Step(x, e); Inv(x', y, fromX + SetOf(sent), fromY)
  {
    var (x', sent) := Step(x, e);
    assert x.taken == [] && x.accepted == [] && !x.finSent && !x.finAccepted && !x.synAccepted;
    WireKeeps(x, x', fromX, sent);
  }

  lemma ListenKeeps(x: Peer, y: Peer, fromX: set<Segment>, fromY: set<Segment>, seg: Segment)
    requires Inv(x, y, fromX, fromY) && seg in fromY && x.tcb.valid && x.tcb.state == Listen
    ensures var (x', sent) := AtListener(x, seg); Inv(x', y, fromX + SetOf(sent), fromY)
  {
    var (x', sent) := AtListener(x, seg);
    assert x.taken == [] && x.accepted == [] && !x.finSent && !x.finAccepted && !x.synAccepted;
    assert Truthful(y, seg);
    WireKeeps(x, x', fromX, sent);
  }

  lemma AppSendKept(x: Peer, y: Peer, data: seq<byte>, x': Peer, sent: seq<Segment>)
    requires Agree(x, y) && Enabled(x, AppSend(data), {}) && (x', sent) == Step(x, AppSend(data))
    ensures Agree(x', y) && Advances(x, x')
    ensures forall s :: s in sent ==> Truthful(x', s)
    ensures x'.tcb.slot.Some? ==> x'.tcb.slot == x.tcb.slot || x'.tcb.slot.value.segment in sent
  {
    if x.tcb.state == Established && x.tcb.sndUna == x.tcb.sndNxt && data != [] {
      var seg := Segment(x.tcb.sndNxt, x.tcb.rcvNxt, PSH_ACK, Chunk(data));
      SendTakes(x.tcb, data, seg);
      SentKept(x, y, data, seg, x');
    } else {
      SendRefuses(x.tcb, data);
      PassedKept(x, y, x');
    }
  }

  lemma PassedKept(x: Peer, y: Peer, x': Peer)
    requires Agree(x, y) && x' == x.(passed := x'.passed)
    ensures Agree(x', y) && Advances(x, x')
  {
  }

  /** A send call that takes bytes: `seg` goes out and is queued, and the bytes join those taken. */
  lemma SentKept(x: Peer, y: Peer, data: seq<byte>, seg: Segment, x': Peer)
    requires Agree(x, y) && data != [] && |x.taken| + |Chunk(data)| + 2 < TWO32
    requires x.tcb.valid && x.tcb.state == Established && x.tcb.sndUna == x.tcb.sndNxt
    requires seg == Segment(x.tcb.sndNxt, x.tcb.rcvNxt, PSH_ACK, Chunk(data))
    requires x' == x.(tcb := x.tcb.(slot := Some(Tracked(seg, x.tcb.sndNxt + |Chunk(data)|, false)), count := 1,
                                    sndNxt := x.tcb.sndNxt + |Chunk(data)|),
                      passed := x.passed + data, taken := x.taken + Chunk(data))
    ensures Agree(x', y) && Advances(x, x') && Truthful(x', seg)
  {
    assert IsAt(Chunk(data), |x.taken|, x'.taken);
  }

  lemma AppSendKeeps(x: Peer, y: Peer, fromX: set<Segment>, fromY: set<Segment>, data: seq<byte>)
    requires Inv(x, y, fromX, fromY) && Enabled(x, AppSend(data), fromY)
    ensures var (x', sent) := Step(x, AppSend(data)); Inv(x', y, fromX + SetOf(sent), fromY)
  {
    var (x', sent) := Step(x, AppSend(data));
    AppSendKept(x, y, data, x', sent);
    WireKeeps(x, x', fromX, sent);
  }

  lemma AppCloseKeeps(x: Peer, y: Peer, fromX: set<Segment>, fromY: set<Segment>)
    requires Inv(x, y, fromX, fromY) && Enabled(x, AppClose, fromY)
    ensures var (x', sent) := Step(x, AppClose); Inv(x', y, fromX + SetOf(sent), fromY)
  {
    var (x', sent) := Step(x, AppClose);
    AppCloseKept(x, y, x', sent);
    WireKeeps(x, x', fromX, sent);
  }

  lemma AppCloseKept(x: Peer, y: Peer, x': Peer, sent: seq<Segment>)
    requires Agree(x, y) && x.tcb.valid && (x', sent) == Step(x, AppClose)
    ensures Agree(x', y) && Advances(x, x')
    ensures forall s :: s in sent ==> Truthful(x', s)
    ensures x'.tcb.slot.Some? ==> x'.tcb.slot == x.tcb.slot || x'.tcb.slot.value.segment in sent
  {
    if Opening(x.tcb.state) { CloseBooked(x.tcb, true); }
  }

  /** What a true acknowledgement can say: never beyond `snd_nxt`. */
  lemma AckBounds(x: Peer, y: Peer, seg: Segment)
    requires Consistent(x) && Follows(y, x) && Truthful(y, seg) && seg.flags.ack
    ensures seg.ackNum <= Taken(y) <= Used(x)
  {
  }

  /** Data in order is the next stretch of the other side's stream, and it has not closed before it. */
  lemma NextStretch(x: Peer, y: Peer, seg: Segment)
    requires Consistent(x) && Follows(x, y) && Truthful(y, seg) && seg.payload != []
    requires x.synAccepted && !x.finAccepted && seg.seqNum == Taken(x)
    ensures x.accepted + seg.payload <= y.taken
  {
    var n := |x.accepted|;
    assert y.taken[n..n + |seg.payload|] == seg.payload;
    assert x.accepted == y.taken[..n];
    assert (x.accepted + seg.payload) == y.taken[..n + |seg.payload|];
  }

  /** What processing a segment must keep. */
  ghost predicate Kept(x: Peer, x': Peer, y: Peer, sent: seq<Segment>) {
    && Agree(x', y) && Advances(x, x')
    && (forall s :: s in sent ==> Truthful(x', s))
    && (x'.tcb.slot.Some? ==> x'.tcb.slot == x.tcb.slot)
  }

  lemma AckKept(x: Peer, y: Peer, seg: Segment, x': Peer)
    requires Agree(x, y) && Truthful(y, seg) && x.tcb.valid && x.tcb.state == Established
    requires x' == x.(tcb := TakeAck(x.tcb, seg))
    ensures Kept(x, x', y, [])
  {
    if seg.flags.ack { AckBounds(x, y, seg); }
  }

  lemma DataKept(x: Peer, y: Peer, seg: Segment, r: Outcome)
    requires Agree(x, y) && Truthful(y, seg) && x.tcb.valid && x.tcb.state == Established
    requires r == TakeData(x.tcb, seg, true)
    ensures Kept(x, After(x, r), y, r.sent)
  {
    if seg.payload != [] && seg.seqNum == x.tcb.rcvNxt { NextStretch(x, y, seg); }
  }

  lemma SynSentKept(x: Peer, y: Peer, seg: Segment, r: Outcome)
    requires Agree(x, y) && Truthful(y, seg) && x.tcb.valid && x.tcb.state == SynSent
    requires r == Receive(x.tcb, seg, true)
    ensures Kept(x, After(x, r), y, r.sent)
  {
    if seg.flags.ack { AckBounds(x, y, seg); }
  }

  lemma SynReceivedKept(x: Peer, y: Peer, seg: Segment, r: Outcome)
    requires Agree(x, y) && Truthful(y, seg) && x.tcb.valid && x.tcb.state == SynReceived
    requires r == Receive(x.tcb, seg, true)
    ensures Kept(x, After(x, r), y, r.sent)
  {
    if seg.flags.ack { AckBounds(x, y, seg); }
  }

  lemma FinWaitKept(x: Peer, y: Peer, seg: Segment, r: Outcome)
    requires Agree(x, y) && Truthful(y, seg) && x.tcb.valid && (x.tcb.state == FinWait1 || x.tcb.state == FinWait2)
    requires r == Receive(x.tcb, seg, true)
    ensures Kept(x, After(x, r), y, r.sent)
  {
    if seg.flags.ack { AckBounds(x, y, seg); }
  }

  lemma LastAckKept(x: Peer, y: Peer, seg: Segment, r: Outcome)
    requires Agree(x, y) && Truthful(y, seg) && x.tcb.valid
    requires x.tcb.state == CloseWait || x.tcb.state == LastAck || x.tcb.state == TimeWait
    requires r == Receive(x.tcb, seg, true)
    ensures Kept(x, After(x, r), y, r.sent)
  {
    if seg.flags.ack { AckBounds(x, y, seg); }
  }

  lemma ReceiveKept(x: Peer, y: Peer, seg: Segment, r: Outcome)
    requires Agree(x, y) && Truthful(y, seg) && x.tcb.valid && x.tcb.state != Listen && r == Receive(x.tcb, seg, true)
    ensures Kept(x, After(x, r), y, r.sent)
  {
    match x.tcb.state
    case SynSent => SynSentKept(x, y, seg, r);
    case SynReceived => SynReceivedKept(x, y, seg, r);
    case Established =>
      var mid := x.(tcb := TakeAck(x.tcb, seg));
      AckKept(x, y, seg, mid);
      DataKept(mid, y, seg, r);
    case FinWait1 => FinWaitKept(x, y, seg, r);
    case FinWait2 => FinWaitKept(x, y, seg, r);
    case _ => LastAckKept(x, y, seg, r);
  }

  lemma ArriveKeeps(x: Peer, y: Peer, fromX: set<Segment>, fromY: set<Segment>, seg: Segment)
    requires Inv(x, y, fromX, fromY) && Enabled(x, Arrive(seg), fromY) && x.tcb.state != Listen
    ensures var (x', sent) := Step(x, Arrive(seg)); Inv(x', y, fromX + SetOf(sent), fromY)
  {
    var (x', sent) := Step(x, Arrive(seg));
    assert Truthful(y, seg);
    ReceiveKept(x, y, seg, Receive(x.tcb, seg, true));
    WireKeeps(x, x', fromX, sent);
  }

  lemma TimerKeeps(x: Peer, y: Peer, fromX: set<Segment>, fromY: set<Segment>, e: Event)
    requires Inv(x, y, fromX, fromY) && Enabled(x, e, fromY) && (e.RetransmitTimer? || e.TimeWaitTimer?)
    ensures var (x', sent) := Step(x, e); Inv(x', y, fromX + SetOf(sent), fromY)
  {
    var (x', sent) := Step(x, e);
    WireKeeps(x, x', fromX, sent);
  }

  /** Every event of one endpoint keeps the invariant. */
  lemma StepKeeps(x: Peer, y: Peer, fromX: set<Segment>, fromY: set<Segment>, e: Event)
    requires Inv(x, y, fromX, fromY) && Enabled(x, e, fromY)
    ensures var (x', sent) := Step(x, e); Inv(x', y, fromX + SetOf(sent), fromY)
  {
    match e
    case ActiveOpen => OpenKeeps(x, y, fromX, fromY, e);
    case PassiveOpen => OpenKeeps(x, y, fromX, fromY, e);
    case AppSend(data) => AppSendKeeps(x, y, fromX, fromY, data);
    case AppClose => AppCloseKeeps(x, y, fromX, fromY);
    case Arrive(seg) =>
      if x.tcb.state == Listen {
        ListenKeeps(x, y, fromX, fromY, seg);
      } else {
        ArriveKeeps(x, y, fromX, fromY, seg);
      }
    case RetransmitTimer => TimerKeeps(x, y, fromX, fromY, e);
    case TimeWaitTimer => TimerKeeps(x, y, fromX, fromY, e);
  }

  // ---------- Whole runs ----------

  datatype System = System(a: Peer, b: Peer, fromA: set<Segment>, fromB: set<Segment>)

  /** An event at endpoint `a` (when `atA`) or `b`. */
  datatype Move = Move(atA: bool, event: Event)

  ghost predicate CanMove(s: System, m: Move) {
    if m.atA then Enabled(s.a, m.event, s.fromB) else Enabled(s.b, m.event, s.fromA)
  }

  ghost function Moved(s: System, m: Move): System {
    if m.atA then
      var (a, sent) := Step(s.a, m.event);
      s.(a := a, fromA := s.fromA + SetOf(sent))
    else
      var (b, sent) := Step(s.b, m.event);
      s.(b := b, fromB := s.fromB + SetOf(sent))
  }

  ghost function Exec(run: seq<Move>): System {
    if run == [] then System(IDLE, IDLE, {}, {}) else Moved(Exec(run[..|run| - 1]), run[|run| - 1])
  }

  ghost predicate IsRun(run: seq<Move>) {
    run == [] || (IsRun(run[..|run| - 1]) && CanMove(Exec(run[..|run| - 1]), run[|run| - 1]))
  }

  /** The invariant holds in every reachable state. */
  lemma {:induction false} ReachableInv(run: seq<Move>)
    requires IsRun(run)
    ensures var s := Exec(run); Inv(s.a, s.b, s.fromA, s.fromB)
  {
    if run != [] {
      var s, m := Exec(run[..|run| - 1]), run[|run| - 1];
      ReachableInv(run[..|run| - 1]);
      if m.atA {
        StepKeeps(s.a, s.b, s.fromA, s.fromB, m.event);
      } else {
        StepKeeps(s.b, s.a, s.fromB, s.fromA, m.event);
      }
    }
  }

  /** What `y` accepted from `x` is in order and without gaps or repeats, and `x` knows no more than the truth. */
  ghost predicate DeliveredInOrder(x: Peer, y: Peer) {
    && y.accepted <= x.taken
    && (x.tcb.valid ==> x.tcb.sndUna <= Taken(y) <= x.tcb.sndNxt)
    && (y.tcb.valid ==> y.tcb.rcvNxt == Taken(y))
  }

  /** In every reachable state both streams are delivered in order and exactly once. */
  lemma InOrderExactlyOnce(run: seq<Move>)
    requires IsRun(run)
    ensures var s := Exec(run); DeliveredInOrder(s.a, s.b) && DeliveredInOrder(s.b, s.a)
  {
    ReachableInv(run);
  }

  /** Closing is complete: what the state of `x` guarantees about its peer. */
  ghost predicate CloseComplete(x: Peer, y: Peer) {
    && (x.tcb.state == FinWait1 || x.tcb.state == LastAck ==> y.accepted == x.taken)
    && (x.tcb.state == FinWait2 || x.tcb.state == TimeWait ==> y.accepted == x.taken && y.finAccepted)
    && (x.released ==> y.accepted == x.taken && y.finAccepted && x.accepted == y.taken && x.finAccepted)
    && x.tcb.state != Closing
  }

  lemma AgreedClose(x: Peer, y: Peer)
    requires Agree(x, y)
    ensures CloseComplete(x, y)
  {
    if x.tcb.valid && x.finSent && x.tcb.sndUna + 1 >= Used(x) {
      assert |y.accepted| >= |x.taken|;
    }
  }

  /** In every reachable state a closing endpoint has had all its data accepted, and a released one everything both
      ways. */
  lemma CloseIsComplete(run: seq<Move>)
    requires IsRun(run)
    ensures var s := Exec(run); CloseComplete(s.a, s.b) && CloseComplete(s.b, s.a)
  {
    ReachableInv(run);
    AgreedClose(Exec(run).a, Exec(run).b);
    AgreedClose(Exec(run).b, Exec(run).a);
  }

  /** What the arrows of the connection diagram in section 3.3.2 of RFC 9293 are labelled with. */
  datatype Cause = OpenPassive | OpenActive | SendCall | CloseCall | RcvSyn | RcvSynAck | RcvAckOfSyn | RcvRst
                 | RcvFin | RcvAckOfFin | Timeout

  /** All the arrows of that diagram. */
  predicate Arrow(s: State, c: Cause, s': State) {
    match s
    case Closed => (c == OpenPassive && s' == Listen) || (c == OpenActive && s' == SynSent)
    case Listen =>
      (c == RcvSyn && s' == SynReceived) || (c == SendCall && s' == SynSent) || (c == CloseCall && s' == Closed)
    case SynSent =>
      (c == RcvSynAck && s' == Established) || (c == RcvSyn && s' == SynReceived) || (c == CloseCall && s' == Closed)
    case SynReceived =>
      (c == RcvAckOfSyn && s' == Established) || (c == CloseCall && s' == FinWait1) || (c == RcvRst && s' == Listen)
    case Established => (c == CloseCall && s' == FinWait1) || (c == RcvFin && s' == CloseWait)
    case FinWait1 => (c == RcvAckOfFin && s' == FinWait2) || (c == RcvFin && s' == Closing)
    case FinWait2 => c == RcvFin && s' == TimeWait
    case CloseWait => c == CloseCall && s' == LastAck
    case Closing => c == RcvAckOfFin && s' == TimeWait
    case LastAck => c == RcvAckOfFin && s' == Closed
    case TimeWait => c == Timeout && s' == Closed
  }

  /** The event at endpoint `x` is an instance of the cause: the initial sequence number is 0, the FIN follows the
      data. */
  ghost predicate Causes(x: Peer, e: Event, c: Cause) {
    match c
    case OpenPassive => e.PassiveOpen?
    case OpenActive => e.ActiveOpen?
    case SendCall => e.AppSend?
    case CloseCall => e.AppClose?
    case RcvSyn => e.Arrive? && e.seg.flags.syn && !e.seg.flags.ack
    case RcvSynAck => e.Arrive? && e.seg.flags.syn && e.seg.flags.ack && e.seg.ackNum == 1
    case RcvAckOfSyn => e.Arrive? && e.seg.flags.ack && e.seg.ackNum == 1
    case RcvRst => e.Arrive? && e.seg.flags.rst
    case RcvFin => e.Arrive? && e.seg.flags.fin && e.seg.seqNum == Taken(x)
    case RcvAckOfFin => e.Arrive? && e.seg.flags.ack && x.finSent && e.seg.ackNum > 1 + |x.taken|
    case Timeout => e.TimeWaitTimer?
  }

  /** The event leaves the state alone or takes it along an arrow that is labelled with it. */
  ghost predicate OnDiagram(x: Peer, e: Event, x': Peer) {
    x'.tcb.state == x.tcb.state || exists c :: Arrow(x.tcb.state, c, x'.tcb.state) && Causes(x, e, c)
  }

  /** The only cause that can take a state anywhere on this event. */
  ghost function CauseOf(x: Peer, e: Event): Cause {
    match e
    case ActiveOpen => OpenActive
    case PassiveOpen => OpenPassive
    case AppSend(_) => SendCall
    case AppClose => CloseCall
    case TimeWaitTimer => Timeout
    case RetransmitTimer => Timeout
    case Arrive(_) =>
      match x.tcb.state
      case Listen => RcvSyn
      case SynSent => RcvSynAck
      case SynReceived => RcvAckOfSyn
      case Established => RcvFin
      case FinWait2 => RcvFin
      case _ => RcvAckOfFin
  }

  lemma ArriveFollowsDiagram(x: Peer, seg: Segment)
    requires Consistent(x) && x.tcb.valid
    ensures OnDiagram(x, Arrive(seg), Step(x, Arrive(seg)).0)
  {
    var x', c := Step(x, Arrive(seg)).0, CauseOf(x, Arrive(seg));
    if x'.tcb.state != x.tcb.state {
      assert Arrow(x.tcb.state, c, x'.tcb.state) && Causes(x, Arrive(seg), c);
    }
  }

  lemma StepFollowsDiagram(x: Peer, e: Event, incoming: set<Segment>)
    requires Consistent(x) && Enabled(x, e, incoming)
    ensures OnDiagram(x, e, Step(x, e).0)
  {
    var x', c := Step(x, e).0, CauseOf(x, e);
    if e.Arrive? {
      ArriveFollowsDiagram(x, e.seg);
    } else if x'.tcb.state != x.tcb.state {
      assert Arrow(x.tcb.state, c, x'.tcb.state) && Causes(x, e, c);
    }
  }

  /** Every move of every run leaves the other endpoint alone, and follows an arrow if it changes the state. */
  lemma MovesFollowDiagram(run: seq<Move>, m: Move)
    requires IsRun(run) && CanMove(Exec(run), m)
    ensures var s, s' := Exec(run), Moved(Exec(run), m);
            if m.atA then s'.b == s.b && OnDiagram(s.a, m.event, s'.a) else s'.a == s.a && OnDiagram(s.b, m.event, s'.b)
  {
    var s := Exec(run);
    ReachableInv(run);
    if m.atA { StepFollowsDiagram(s.a, m.event, s.fromB); } else { StepFollowsDiagram(s.b, m.event, s.fromA); }
  }

  // ---------- What the application passed in ----------

  ghost function PeerOf(s: System, atA: bool): Peer {
    if atA then s.a else s.b
  }

  /** No successful send call of this endpoint passed more than one segment's worth. */
  ghost predicate NoCut(run: seq<Move>, atA: bool) {
    run == [] ||
    var m := run[|run| - 1];
    && NoCut(run[..|run| - 1], atA)
    && (m.atA == atA && m.event.AppSend? && Send(PeerOf(Exec(run[..|run| - 1]), atA).tcb, m.event.data, true).ok ==>
          |m.event.data| <= MSS)
  }

  lemma OtherEventsKeepBytes(x: Peer, e: Event)
    requires !e.AppSend?
    ensures Step(x, e).0.taken == x.taken && Step(x, e).0.passed == x.passed
  {
    if e.Arrive? { ArriveKeepsBytes(x, e.seg, Accept(e.seg, true), Receive(x.tcb, e.seg, true)); }
  }

  lemma ArriveKeepsBytes(x: Peer, seg: Segment, accepted: Outcome, received: Outcome)
    requires accepted == Accept(seg, true) && received == Receive(x.tcb, seg, true)
    ensures Step(x, Arrive(seg)).0.taken == x.taken && Step(x, Arrive(seg)).0.passed == x.passed
  {
  }

  /** The bytes taken are the bytes passed in exactly when no successful call was cut short. */
  lemma {:induction false} TakenIsPassedIff(run: seq<Move>, atA: bool)
    ensures var x := PeerOf(Exec(run), atA);
            |x.taken| <= |x.passed| && (x.taken == x.passed <==> NoCut(run, atA))
  {
    if run != [] {
      var s, m := Exec(run[..|run| - 1]), run[|run| - 1];
      TakenIsPassedIff(run[..|run| - 1], atA);
      if m.atA != atA {
        assert PeerOf(Moved(s, m), atA) == PeerOf(s, atA);
      } else {
        assert PeerOf(Moved(s, m), atA) == Step(PeerOf(s, atA), m.event).0;
        if m.event.AppSend? {
          CutSteps(PeerOf(s, atA), m.event.data);
        } else {
          OtherEventsKeepBytes(PeerOf(s, atA), m.event);
        }
      }
    }
  }

  lemma CutSteps(x: Peer, data: seq<byte>)
    requires |x.taken| <= |x.passed|
    ensures var x' := Step(x, AppSend(data)).0;
            && |x'.taken| <= |x'.passed|
            && (x'.taken == x'.passed <==> x.taken == x.passed && (Send(x.tcb, data, true).ok ==> |data| <= MSS))
  {
    var x' := Step(x, AppSend(data)).0;
    if Send(x.tcb, data, true).ok && x'.taken == x'.passed {
      assert |Chunk(data)| == |data|;
      assert x'.taken[..|x.taken|] == x.taken && x'.passed[..|x.passed|] == x.passed;
    }
  }

  /** The peer accepts a prefix of the bytes passed in, as long as no successful call was cut short. */
  lemma PassedInOrder(run: seq<Move>)
    requires IsRun(run)
    ensures NoCut(run, true) ==> Exec(run).b.accepted <= Exec(run).a.passed
    ensures NoCut(run, false) ==> Exec(run).a.accepted <= Exec(run).b.passed
  {
    InOrderExactlyOnce(run);
    TakenIsPassedIff(run, true);
    TakenIsPassedIff(run, false);
  }

  lemma Extend(run: seq<Move>, m: Move)
    requires IsRun(run) && CanMove(Exec(run), m)
    ensures IsRun(run + [m]) && Exec(run + [m]) == Moved(Exec(run), m)
  {
    assert (run + [m])[..|run|] == run;
  }

  const WAITING := IDLE.(tcb := LISTENING)
  const SYN_SEG := Segment(0, 0, SYN, [])
  const SYN_ACK_SEG := Segment(0, 1, SYN_ACK, [])
  const ACK_SEG := Segment(1, 1, ACK, [])

  lemma HandshakeSteps(a: Peer, b: Peer, up: Peer)
    requires a == Step(IDLE, ActiveOpen).0 && b == AtListener(WAITING, SYN_SEG).0
    requires up == Peer(Quiet(1, 1), true, false, [], [], false, [], true, false)
    ensures Step(IDLE, PassiveOpen) == (WAITING, []) && Step(IDLE, ActiveOpen).1 == [SYN_SEG]
    ensures Step(WAITING, Arrive(SYN_SEG)) == (b, [SYN_ACK_SEG])
    ensures Step(a, Arrive(SYN_ACK_SEG)) == (up, [ACK_SEG]) && Step(b, Arrive(ACK_SEG)).0 == up
    ensures a.tcb.valid && b.tcb.valid
  {
    var none: seq<byte> := [];
    assert none + none == none;
  }

  lemma HandshakeOpening(a: Peer, b: Peer) returns (run: seq<Move>)
    requires a == Step(IDLE, ActiveOpen).0 && Step(IDLE, ActiveOpen).1 == [SYN_SEG]
    requires Step(IDLE, PassiveOpen) == (WAITING, []) && Step(WAITING, Arrive(SYN_SEG)) == (b, [SYN_ACK_SEG])
    ensures IsRun(run) && Exec(run).a == a && Exec(run).b == b && SYN_ACK_SEG in Exec(run).fromB
  {
    Extend([], Move(false, PassiveOpen));
    run := [] + [Move(false, PassiveOpen)];
    assert Exec(run).a == IDLE && Exec(run).b == WAITING;
    Extend(run, Move(true, ActiveOpen));
    run := run + [Move(true, ActiveOpen)];
    assert Exec(run).a == a && Exec(run).b == WAITING && SYN_SEG in Exec(run).fromA;
    Extend(run, Move(false, Arrive(SYN_SEG)));
    run := run + [Move(false, Arrive(SYN_SEG))];
  }

  /** Both endpoints established, with nothing sent yet. */
  lemma Handshake(up: Peer) returns (run: seq<Move>)
    requires up == Peer(Quiet(1, 1), true, false, [], [], false, [], true, false)
    ensures IsRun(run) && Exec(run).a == up && Exec(run).b == up
  {
    var a, b := Step(IDLE, ActiveOpen).0, AtListener(WAITING, SYN_SEG).0;
    HandshakeSteps(a, b, up);
    run := HandshakeOpening(a, b);
    Extend(run, Move(true, Arrive(SYN_ACK_SEG)));
    run := run + [Move(true, Arrive(SYN_ACK_SEG))];
    assert Exec(run).a == up && Exec(run).b == b && ACK_SEG in Exec(run).fromA;
    Extend(run, Move(false, Arrive(ACK_SEG)));
    run := run + [Move(false, Arrive(ACK_SEG))];
  }

  /** One unhurried exchange: `x` sends a chunk, `y` accepts it, `x` hears of it. */
  lemma ExchangeSteps(x: Peer, y: Peer, data: seq<byte>, n: u32, seg: Segment, ack: Segment)
    requires data != [] && 1 <= n < 0x1_0000 && x.tcb == Quiet(n, 1) && y.tcb == Quiet(1, n)
    requires seg == Segment(n, 1, PSH_ACK, Chunk(data)) && ack == Segment(1, n + |Chunk(data)|, ACK, [])
    ensures Step(x, AppSend(data)).1 == [seg] && Step(y, Arrive(seg)).1 == [ack]
    ensures Step(y, Arrive(seg)).0 == y.(tcb := Quiet(1, n + |Chunk(data)|), accepted := y.accepted + Chunk(data))
    ensures Step(x, AppSend(data)).0.tcb.valid
    ensures Step(Step(x, AppSend(data)).0, Arrive(ack)).0 ==
            x.(tcb := Quiet(n + |Chunk(data)|, 1), taken := x.taken + Chunk(data), passed := x.passed + data)
  {
    SendTakes(x.tcb, data, seg);
    var end := n + |Chunk(data)|;
    var waiting := x.tcb.(slot := Some(Tracked(seg, end, false)), count := 1, sndNxt := end);
    AckSettles(waiting, ack);
    DataTaken(y.tcb, seg, ack);
    assert x.accepted + [] == x.accepted;
  }

  lemma AckSettles(t: Tcb, ack: Segment)
    requires t.valid && t.state == Established && t.count == 1 && t.sndUna < t.sndNxt && t.rcvNxt == 1
    requires t.slot.Some? && t.slot.value.seqEnd == t.sndNxt && ack == Segment(1, t.sndNxt, ACK, [])
    ensures Receive(t, ack, true) == Outcome(Quiet(t.sndNxt, 1), [], [], true)
  {
  }

  lemma DataTaken(t: Tcb, seg: Segment, ack: Segment)
    requires t == Quiet(1, seg.seqNum) && seg.ackNum == 1 && seg.flags == PSH_ACK && seg.payload != []
    requires seg.seqNum + |seg.payload| < TWO32 && ack == Segment(1, seg.seqNum + |seg.payload|, ACK, [])
    ensures Receive(t, seg, true) == Outcome(Quiet(1, seg.seqNum + |seg.payload|), [ack], seg.payload, true)
  {
  }

  lemma Exchange(run: seq<Move>, data: seq<byte>, n: u32) returns (run': seq<Move>)
    requires IsRun(run) && data != [] && 1 <= n < 0x1_0000
    requires |Exec(run).a.taken| < n && Exec(run).a.tcb == Quiet(n, 1) && Exec(run).b.tcb == Quiet(1, n)
    ensures IsRun(run')
    ensures Exec(run').b == Exec(run).b.(tcb := Quiet(1, n + |Chunk(data)|),
                                         accepted := Exec(run).b.accepted + Chunk(data))
    ensures Exec(run').a == Exec(run).a.(tcb := Quiet(n + |Chunk(data)|, 1), taken := Exec(run).a.taken + Chunk(data),
                                         passed := Exec(run).a.passed + data)
  {
    var s := Exec(run);
    var seg, ack := Segment(n, 1, PSH_ACK, Chunk(data)), Segment(1, n + |Chunk(data)|, ACK, []);
    ExchangeSteps(s.a, s.b, data, n, seg, ack);
    Extend(run, Move(true, AppSend(data)));
    run' := run + [Move(true, AppSend(data))];
    assert seg in Exec(run').fromA;
    Extend(run', Move(false, Arrive(seg)));
    run' := run' + [Move(false, Arrive(seg))];
    assert ack in Exec(run').fromB;
    Extend(run', Move(true, Arrive(ack)));
    run' := run' + [Move(true, Arrive(ack))];
  }

  /** A call with more than one segment's worth reports success, and then the peer's bytes are not a prefix of those
      passed in. */
  lemma CutBreaksPrefix() returns (run: seq<Move>)
    ensures IsRun(run) && !(Exec(run).b.accepted <= Exec(run).a.passed)
  {
    var zeros: seq<byte> := seq(MSS + 1, _ => 0);
    run := Handshake(Peer(Quiet(1, 1), true, false, [], [], false, [], true, false));
    run := Exchange(run, zeros, 1);
    run := Exchange(run, [1], 1 + MSS);
    var s := Exec(run);
    assert s.b.accepted == [] + zeros[..MSS] + [1] && s.a.passed == [] + zeros + [1];
    assert s.b.accepted[MSS] == 1 && s.a.passed[MSS] == 0;
  }
}
