/** One TCP connection block: the transitions of the stop-and-wait state machine. */
module TcpEndpoint {
  import opened NetTypes

  const MSS: nat := 1460

  datatype State = Closed | Listen | SynSent | SynReceived | Established
                 | FinWait1 | FinWait2 | CloseWait | Closing | LastAck | TimeWait

  datatype Flags = Flags(fin: bool, syn: bool, rst: bool, psh: bool, ack: bool, urg: bool)

  const SYN := Flags(false, true, false, false, false, false)
  const SYN_ACK := Flags(false, true, false, false, true, false)
  const ACK := Flags(false, false, false, false, true, false)
  const PSH_ACK := Flags(false, false, false, true, true, false)
  const FIN_ACK := Flags(true, false, false, false, true, false)

  datatype Segment = Segment(seqNum: u32, ackNum: u32, flags: Flags, payload: seq<byte>)

  /** A sent segment kept until it is acknowledged. */
  datatype Tracked = Tracked(segment: Segment, seqEnd: u32, acked: bool)

  /** The connection block. `TCP_MAX_INFLIGHT` is one, so the send queue is one slot with its counter. */
  datatype Tcb = Tcb(valid: bool, state: State, sndUna: u32, sndNxt: u32, rcvNxt: u32,
                     slot: Option<Tracked>, count: int)

  /** What one call does: the new block, the segments handed to IP, the bytes handed up, and the return code. */
  datatype Outcome = Outcome(tcb: Tcb, sent: seq<Segment>, delivered: seq<byte>, ok: bool)

  const RELEASED := Tcb(false, Closed, 0, 0, 0, None, 0)

  /** `tcp_listen`: the block of a listener. */
  const LISTENING := Tcb(true, Listen, 0, 0, 0, None, 0)

  function Add32(x: u32, n: nat): u32 {
    (x + n) % TWO32
  }

  predicate HasUnacked(t: Tcb) {
    t.slot.Some? && !t.slot.value.acked
  }

  /** `tcp_sendq_track`; None is its failure return. */
  function Track(t: Tcb, seg: Segment, seqEnd: u32): Option<Tcb> {
    if t.count >= 1 || t.slot.Some? then None
    else Some(t.(slot := Some(Tracked(seg, seqEnd, false)), count := t.count + 1))
  }

  /** `tcp_sendq_ack`. */
  function AckQueue(t: Tcb, ack: u32): Tcb {
    if t.slot.Some? && ack >= t.slot.value.seqEnd then t.(slot := None, count := t.count - 1) else t
  }

  /** The FIN is no longer queued. */
  predicate FinAcked(t: Tcb) {
    !(t.slot.Some? && t.slot.value.segment.flags.fin)
  }

  /** `tcp_connect` on a fresh block; `canSend` says whether IP takes the segment. */
  function Connect(canSend: bool): Outcome {
    var syn := Segment(0, 0, SYN, []);
    if !canSend then Outcome(RELEASED, [], [], false)
    else Outcome(Tcb(true, SynSent, 0, 1, 0, Some(Tracked(syn, 1, false)), 1), [syn], [], true)
  }

  /** The listener branch of `tcp_receive`: a child block for a segment whose only flag is SYN. */
  function Accept(seg: Segment, canSend: bool): Outcome {
    var rcvNxt := Add32(seg.seqNum, 1);
    var synAck := Segment(0, rcvNxt, SYN_ACK, []);
    if seg.flags != SYN || !canSend then Outcome(RELEASED, [], [], false)
    else Outcome(Tcb(true, SynReceived, 0, 1, rcvNxt, Some(Tracked(synAck, 1, false)), 1), [synAck], [], true)
  }

  /** `tcp_send`. */
  function Send(t: Tcb, data: seq<byte>, canSend: bool): Outcome {
    if !t.valid || t.state != Established then Outcome(t, [], [], false)
    else if data == [] then Outcome(t, [], [], true)
    else if HasUnacked(t) || !canSend then Outcome(t, [], [], false)
    else
      var chunk := Chunk(data);
      var seg := Segment(t.sndNxt, t.rcvNxt, PSH_ACK, chunk);
      var r := Track(t, seg, Add32(t.sndNxt, |chunk|));
      if r.None? then Outcome(t, [seg], [], false)
      else Outcome(r.value.(sndNxt := Add32(t.sndNxt, |chunk|)), [seg], [], true)
  }

  /** The bytes one `tcp_send` call takes: at most one segment's worth. */
  function Chunk(data: seq<byte>): (r: seq<byte>)
    ensures r <= data && |r| == if |data| > MSS then MSS else |data|
  {
    if |data| > MSS then data[..MSS] else data
  }

  /** `tcp_close`. */
  function Close(t: Tcb, canSend: bool): Outcome {
    if !t.valid || (t.state != Established && t.state != CloseWait) || HasUnacked(t) || !canSend
    then Outcome(t, [], [], false)
    else
      var seg := Segment(t.sndNxt, t.rcvNxt, FIN_ACK, []);
      var r := Track(t, seg, Add32(t.sndNxt, 1));
      if r.None? then Outcome(t, [seg], [], false)
      else
        var next := if t.state == Established then FinWait1 else LastAck;
        Outcome(r.value.(sndNxt := Add32(t.sndNxt, 1), state := next), [seg], [], true)
  }

  /** The immediate acknowledgement sent from block `t`. */
  function AckSegment(t: Tcb): Segment {
    Segment(t.sndNxt, t.rcvNxt, ACK, [])
  }

  /** The acknowledgement part of `tcp_receive` in ESTABLISHED. */
  function TakeAck(t: Tcb, seg: Segment): Tcb {
    if seg.flags.ack && seg.ackNum > t.sndUna && seg.ackNum <= t.sndNxt
    then AckQueue(t, seg.ackNum).(sndUna := seg.ackNum) else t
  }

  /** The data and FIN part of `tcp_receive` in ESTABLISHED. */
  function TakeData(t: Tcb, seg: Segment, canSend: bool): Outcome {
    if |seg.payload| > 0 then
      if seg.seqNum == t.rcvNxt then
        var t' := t.(rcvNxt := Add32(t.rcvNxt, |seg.payload|));
        if canSend then Outcome(t', [AckSegment(t')], seg.payload, true) else Outcome(t', [], [], false)
      else if canSend then Outcome(t, [AckSegment(t)], [], true) else Outcome(t, [], [], false)
    else if seg.flags.fin && seg.seqNum == t.rcvNxt then
      var t' := t.(rcvNxt := Add32(seg.seqNum, 1));
      if canSend then Outcome(t'.(state := CloseWait), [AckSegment(t')], [], true) else Outcome(t', [], [], false)
    else Outcome(t, [], [], !seg.flags.fin)
  }

  /** `tcp_receive` for a segment that belongs to this connection. */
  function Receive(t: Tcb, seg: Segment, canSend: bool): Outcome {
    match t.state
    case SynSent =>
      if seg.flags.syn && seg.flags.ack && seg.ackNum == t.sndNxt then
        var t' := AckQueue(t, seg.ackNum).(rcvNxt := Add32(seg.seqNum, 1), sndUna := seg.ackNum, state := Established);
        if canSend then Outcome(t', [AckSegment(t')], [], true) else Outcome(t', [], [], false)
      else Outcome(t, [], [], false)
    case SynReceived =>
      if seg.flags.ack && seg.ackNum == t.sndNxt then
        Outcome(AckQueue(t, seg.ackNum).(sndUna := seg.ackNum, state := Established), [], [], true)
      else Outcome(t, [], [], false)
    case Established => TakeData(TakeAck(t, seg), seg, canSend)
    case FinWait1 =>
      if seg.flags.ack && seg.ackNum > t.sndUna then
        var t' := AckQueue(t, seg.ackNum).(sndUna := seg.ackNum);
        Outcome(if FinAcked(t') then t'.(state := FinWait2) else t', [], [], true)
      else Outcome(t, [], [], false)
    case FinWait2 =>
      if seg.flags.fin && seg.seqNum == t.rcvNxt then
        var t' := t.(rcvNxt := Add32(seg.seqNum, 1));
        if canSend then Outcome(t'.(state := TimeWait), [AckSegment(t')], [], true) else Outcome(t', [], [], false)
      else Outcome(t, [], [], true)
    case Closing =>
      if seg.ackNum > t.sndUna then
        var t' := AckQueue(t, seg.ackNum).(sndUna := seg.ackNum);
        Outcome(if FinAcked(t') then t'.(state := TimeWait) else t', [], [], true)
      else Outcome(t, [], [], false)
    case LastAck =>
      if seg.flags.ack && seg.ackNum > t.sndUna then
        var t' := AckQueue(t, seg.ackNum).(sndUna := seg.ackNum);
        Outcome(if FinAcked(t') then RELEASED else t', [], [], true)
      else Outcome(t, [], [], false)
    case TimeWait => Outcome(t, [], [], true)
    case _ => Outcome(t, [], [], false)
  }

  /** `tcp_retransmit_handler`: the queued segment goes out again unchanged. */
  function Retransmit(t: Tcb): seq<Segment> {
    if t.valid && HasUnacked(t) then [t.slot.value.segment] else []
  }

  /** `tcp_time_wait_handler`. */
  function Expire(t: Tcb): Tcb {
    if t.valid && t.state == TimeWait then RELEASED else t
  }

  // ---------- What is answered ----------

  /** The answer to a segment: one acknowledgement of everything received so far. */
  predicate AnswersWith(r: Outcome, rcvNxt: u32) {
    && r.tcb.rcvNxt == rcvNxt && |r.sent| == 1
    && r.sent[0].flags.ack && !r.sent[0].flags.syn && !r.sent[0].flags.fin && r.sent[0].payload == []
    && r.sent[0].ackNum == rcvNxt && r.sent[0].seqNum == r.tcb.sndNxt
  }

  /** A listener answers a segment whose only flag is SYN, whatever its sequence number, and no other. */
  lemma SynAnswered(seg: Segment)
    ensures var r := Accept(seg, true);
            if seg.flags == SYN then
              && r.ok && r.tcb.state == SynReceived && r.tcb.rcvNxt == (seg.seqNum + 1) % TWO32
              && r.sent == [Segment(0, r.tcb.rcvNxt, SYN_ACK, [])]
            else !r.ok && r.sent == [] && !r.tcb.valid
  {
  }

  /** The answer to our SYN is acknowledged and completes the connection. */
  lemma SynAckTaken(t: Tcb, seg: Segment)
    requires t.state == SynSent && seg.flags.syn && seg.flags.ack && seg.ackNum == t.sndNxt
    ensures var r := Receive(t, seg, true);
            && r.ok && r.tcb.state == Established && r.tcb.sndUna == t.sndNxt
            && AnswersWith(r, (seg.seqNum + 1) % TWO32)
  {
  }

  /** A FIN in order is taken: it uses one sequence number, is acknowledged, and the peer's side is closed. */
  lemma FinTaken(t: Tcb, seg: Segment)
    requires t.state == Established && seg.payload == [] && seg.flags.fin && seg.seqNum == t.rcvNxt
    ensures var r := Receive(t, seg, true);
            && r.ok && r.delivered == [] && r.tcb.state == CloseWait && AnswersWith(r, (seg.seqNum + 1) % TWO32)
  {
  }

  /** So is the FIN that ends a connection closed from this side first. */
  lemma LastFinTaken(t: Tcb, seg: Segment)
    requires t.state == FinWait2 && seg.flags.fin && seg.seqNum == t.rcvNxt
    ensures var r := Receive(t, seg, true);
            && r.ok && r.delivered == [] && r.tcb.state == TimeWait && AnswersWith(r, (seg.seqNum + 1) % TWO32)
  {
  }

  /** A FIN out of order, or one that comes without data elsewhere than next, changes neither state nor `rcv_nxt`. */
  lemma FinOutOfOrder(t: Tcb, seg: Segment, canSend: bool)
    requires seg.payload == [] && seg.flags.fin && seg.seqNum != t.rcvNxt
    requires t.state == Established || t.state == FinWait2
    ensures var r := Receive(t, seg, canSend);
            r.tcb.state == t.state && r.tcb.rcvNxt == t.rcvNxt && r.sent == [] && r.delivered == []
  {
  }

  /** Any data in ESTABLISHED is answered with what has been received in order: with it if it is next, and otherwise,
      repeated data and data from beyond a gap included, without it. It never closes the connection. */
  lemma DataAnswered(t: Tcb, seg: Segment)
    requires t.state == Established && seg.payload != []
    ensures var r, next := Receive(t, seg, true), seg.seqNum == t.rcvNxt;
            && r.ok && r.tcb.state == Established
            && r.delivered == (if next then seg.payload else [])
            && AnswersWith(r, if next then (t.rcvNxt + |seg.payload|) % TWO32 else t.rcvNxt)
  {
  }

  /** When its acknowledgement cannot be sent, data that was next is lost: `rcv_nxt` has moved past it, nothing is
      handed up, and a second copy is no longer next. */
  lemma UnsentAckLosesData(t: Tcb, seg: Segment)
    requires t.state == Established && 0 < |seg.payload| < TWO32 && seg.seqNum == t.rcvNxt
    ensures var r := Receive(t, seg, false);
            && !r.ok && r.delivered == [] && r.tcb.rcvNxt == (t.rcvNxt + |seg.payload|) % TWO32
            && Receive(r.tcb, seg, true).delivered == []
  {
  }

  /** A FIN is lost in the same way: `rcv_nxt` has moved past it, the state has not, and a second copy is not taken. */
  lemma UnsentAckLosesFin(t: Tcb, seg: Segment)
    requires t.state == FinWait2 || (t.state == Established && seg.payload == [])
    requires seg.flags.fin && seg.seqNum == t.rcvNxt
    ensures var r := Receive(t, seg, false);
            && !r.ok && r.tcb.state == t.state && r.tcb.rcvNxt == (seg.seqNum + 1) % TWO32 && r.sent == []
            && Receive(r.tcb, seg, true).tcb.state == t.state
  {
  }

  /** The segments a state has no use for: during the handshake all but the awaited one, after our FIN is acknowledged
      all but the peer's, in CLOSE_WAIT and TIME_WAIT all, acknowledgements included. */
  predicate Useless(t: Tcb, seg: Segment) {
    match t.state
    case SynSent => !(seg.flags.syn && seg.flags.ack && seg.ackNum == t.sndNxt)
    case SynReceived => !(seg.flags.ack && seg.ackNum == t.sndNxt)
    case FinWait2 => !(seg.flags.fin && seg.seqNum == t.rcvNxt)
    case CloseWait => true
    case TimeWait => true
    case _ => false
  }

  /** They change nothing and are not answered. */
  lemma UselessIgnored(t: Tcb, seg: Segment, canSend: bool)
    requires Useless(t, seg)
    ensures var r := Receive(t, seg, canSend);
            r.tcb == t && r.sent == [] && r.delivered == [] && (r.ok <==> t.state == FinWait2 || t.state == TimeWait)
  {
  }

  /** The acknowledgement of our SYN completes the connection on the listening side. */
  lemma AckOfSynTaken(t: Tcb, seg: Segment, canSend: bool)
    requires t.state == SynReceived && seg.flags.ack && seg.ackNum == t.sndNxt
    ensures var r := Receive(t, seg, canSend);
            && r.ok && r.tcb.state == Established && r.tcb.sndUna == t.sndNxt && r.tcb.rcvNxt == t.rcvNxt
            && r.sent == [] && r.delivered == []
  {
  }

  /** What the retransmission timer sends again gives the bytes to a peer that missed them and a full acknowledgement,
      without the bytes a second time, from one that did not. */
  lemma RetransmissionRecovers(n: u32, m: u32, data: seq<byte>) returns (seg: Segment)
    requires data != [] && n + |Chunk(data)| < TWO32
    ensures var t := Send(Quiet(n, m), data, true).tcb;
            && Retransmit(t) == [seg]
            && Receive(Quiet(m, n), seg, true).delivered == Chunk(data)
            && AnswersWith(Receive(Quiet(m, n), seg, true), n + |Chunk(data)|)
            && Receive(Quiet(m, n + |Chunk(data)|), seg, true).delivered == []
            && AnswersWith(Receive(Quiet(m, n + |Chunk(data)|), seg, true), n + |Chunk(data)|)
  {
    seg := Segment(n, m, PSH_ACK, Chunk(data));
    SendTakes(Quiet(n, m), data, seg);
    DataAnswered(Quiet(m, n), seg);
    DataAnswered(Quiet(m, n + |Chunk(data)|), seg);
  }

  // ---------- Send-queue bookkeeping against an arbitrary peer ----------

  predicate Opening(s: State) {
    s == SynSent || s == SynReceived || s == Established || s == CloseWait
  }

  /** The slot is occupied exactly while something is unacknowledged, and then ends at `snd_nxt`. */
  ghost predicate Booked(t: Tcb) {
    && t.valid && t.sndUna <= t.sndNxt
    && t.count == (if t.slot.Some? then 1 else 0)
    && (t.slot.Some? <==> t.sndUna < t.sndNxt)
    && (t.slot.Some? ==> t.slot.value.seqEnd == t.sndNxt && !t.slot.value.acked)
  }

  /** Whatever segment arrives, the bookkeeping stays exact until the connection starts to close. */
  lemma ReceiveBooked(t: Tcb, seg: Segment, canSend: bool)
    requires Booked(t) && Opening(t.state)
    ensures Booked(Receive(t, seg, canSend).tcb) && Opening(Receive(t, seg, canSend).tcb.state)
    ensures Receive(t, seg, canSend).tcb.sndNxt == t.sndNxt
  {
  }

  /** Sending keeps the bookkeeping, and the tracking failure after a successful send never happens. */
  lemma SendBooked(t: Tcb, data: seq<byte>, canSend: bool)
    requires Booked(t) && Opening(t.state) && t.sndNxt + |Chunk(data)| < TWO32
    ensures Booked(Send(t, data, canSend).tcb) && Opening(Send(t, data, canSend).tcb.state)
    ensures Send(t, data, canSend).ok <==> t.state == Established && (data == [] || (canSend && t.sndUna == t.sndNxt))
    ensures !Send(t, data, canSend).ok ==> Send(t, data, canSend) == Outcome(t, [], [], false)
    ensures Send(t, data, canSend).tcb.sndNxt <= t.sndNxt + |Chunk(data)|
  {
  }

  /** What a send that takes bytes does to the block. */
  lemma SendTakes(t: Tcb, data: seq<byte>, seg: Segment)
    requires Booked(t) && t.state == Established && t.sndUna == t.sndNxt && data != []
    requires t.sndNxt + |Chunk(data)| < TWO32 && seg == Segment(t.sndNxt, t.rcvNxt, PSH_ACK, Chunk(data))
    ensures Send(t, data, true) ==
            Outcome(t.(slot := Some(Tracked(seg, t.sndNxt + |Chunk(data)|, false)), count := 1,
                       sndNxt := t.sndNxt + |Chunk(data)|), [seg], [], true)
  {
  }

  /** Any other send changes nothing and sends nothing, and is successful only with nothing to send. */
  lemma SendRefuses(t: Tcb, data: seq<byte>)
    requires Booked(t) && !(t.state == Established && t.sndUna == t.sndNxt && data != [])
    ensures Send(t, data, true) == Outcome(t, [], [], t.state == Established && data == [])
  {
  }

  /** Closing succeeds exactly when everything sent is acknowledged, and its tracking failure never happens. */
  lemma CloseBooked(t: Tcb, canSend: bool)
    requires Booked(t) && Opening(t.state) && t.sndNxt + 1 < TWO32
    ensures Booked(Close(t, canSend).tcb)
    ensures Close(t, canSend).ok <==>
            (t.state == Established || t.state == CloseWait) && canSend && t.sndUna == t.sndNxt
    ensures !Close(t, canSend).ok ==> Close(t, canSend) == Outcome(t, [], [], false)
  {
  }

  /** What the outside world does to a connection: any segment at all, or a send call. */
  datatype Input = Hear(seg: Segment, canSend: bool) | Say(data: seq<byte>, canSend: bool)

  function FeedOne(t: Tcb, input: Input): Tcb {
    match input
    case Hear(seg, canSend) => Receive(t, seg, canSend).tcb
    case Say(data, canSend) => Send(t, data, canSend).tcb
  }

  function Feed(t: Tcb, inputs: seq<Input>): Tcb {
    if inputs == [] then t else FeedOne(Feed(t, inputs[..|inputs| - 1]), inputs[|inputs| - 1])
  }

  /** Sequence numbers one input uses up: the bytes of a send call that succeeds. */
  function UsedBy(t: Tcb, input: Input): nat {
    if input.Say? && Send(t, input.data, input.canSend).ok then |Chunk(input.data)| else 0
  }

  /** Sequence numbers a list of inputs uses up, counted without wrap-around. */
  function UsedByAll(t: Tcb, inputs: seq<Input>): nat {
    if inputs == [] then 0
    else
      var n := |inputs| - 1;
      UsedByAll(t, inputs[..n]) + UsedBy(Feed(t, inputs[..n]), inputs[n])
  }

  /** A send keeps the queue exact precisely when `snd_nxt` does not reach 2^32. */
  lemma SendBookedIff(t: Tcb, data: seq<byte>)
    requires Booked(t) && t.state == Established && t.sndUna == t.sndNxt && data != []
    ensures Booked(Send(t, data, true).tcb) <==> t.sndNxt + |Chunk(data)| < TWO32
    ensures Send(t, data, true).ok && Send(t, data, true).tcb.sndNxt == Add32(t.sndNxt, |Chunk(data)|)
  {
    if t.sndNxt + |Chunk(data)| >= TWO32 { WrapsBelow(t.sndNxt, |Chunk(data)|); }
  }

  lemma WrapsBelow(x: u32, n: nat)
    requires TWO32 <= x + n && n <= MSS
    ensures Add32(x, n) == x + n - TWO32 < x
  {
  }

  /** Closing likewise. */
  lemma CloseBookedIff(t: Tcb)
    requires Booked(t) && (t.state == Established || t.state == CloseWait) && t.sndUna == t.sndNxt
    ensures Booked(Close(t, true).tcb) <==> t.sndNxt + 1 < TWO32
  {
  }

  /** The acknowledgement of everything sent is taken, and frees the queue, precisely under the same condition. */
  lemma FullAckIff(t: Tcb, data: seq<byte>, seg: Segment, canSend: bool)
    requires Booked(t) && t.state == Established && t.sndUna == t.sndNxt && data != []
    requires seg.flags.ack && seg.ackNum == Add32(t.sndNxt, |Chunk(data)|)
    ensures var r := Receive(Send(t, data, true).tcb, seg, canSend).tcb;
            && (r.sndUna == seg.ackNum <==> t.sndNxt + |Chunk(data)| < TWO32)
            && (r.slot == None <==> t.sndNxt + |Chunk(data)| < TWO32)
  {
    if t.sndNxt + |Chunk(data)| >= TWO32 { WrapsBelow(t.sndNxt, |Chunk(data)|); }
  }

  lemma FeedOneBooked(t: Tcb, input: Input, t': Tcb)
    requires Booked(t) && Opening(t.state) && t' == FeedOne(t, input)
    ensures Opening(t'.state) && (Booked(t') <==> t.sndNxt + UsedBy(t, input) < TWO32)
    ensures Booked(t') ==> t'.sndNxt == t.sndNxt + UsedBy(t, input)
  {
    match input
    case Hear(seg, canSend) => ReceiveBooked(t, seg, canSend);
    case Say(data, canSend) =>
      if t.state == Established && canSend && t.sndUna == t.sndNxt && data != [] { SendBookedIff(t, data); }
  }

  /** The bookkeeping was exact in every state so far, the present one included. */
  ghost predicate BookedSoFar(t: Tcb, inputs: seq<Input>) {
    Booked(Feed(t, inputs)) && (inputs == [] || BookedSoFar(t, inputs[..|inputs| - 1]))
  }

  /** Against any peer and any application: the send queue has been exact in every state so far, all before closing,
      precisely when the sequence numbers used so far stayed below 2^32. */
  lemma {:induction false} AlwaysBookedIff(t: Tcb, inputs: seq<Input>)
    requires Booked(t) && Opening(t.state)
    ensures BookedSoFar(t, inputs) <==> t.sndNxt + UsedByAll(t, inputs) < TWO32
    ensures BookedSoFar(t, inputs) ==>
              Opening(Feed(t, inputs).state) && Feed(t, inputs).sndNxt == t.sndNxt + UsedByAll(t, inputs)
  {
    if inputs != [] {
      var n := |inputs| - 1;
      AlwaysBookedIff(t, inputs[..n]);
      if BookedSoFar(t, inputs[..n]) { FeedOneBooked(Feed(t, inputs[..n]), inputs[n], Feed(t, inputs)); }
    }
  }

  /** So for every connection from the call or the SYN that opens it: `t` is its first block, and the SYN takes one
      sequence number. */
  lemma OpenedBookedIff(t: Tcb, syn: Segment, inputs: seq<Input>)
    requires t == Connect(true).tcb || (syn.flags == SYN && t == Accept(syn, true).tcb)
    ensures BookedSoFar(t, inputs) <==> 1 + UsedByAll(t, inputs) < TWO32
  {
    assert Booked(t) && Opening(t.state) && t.sndNxt == 1;
    AlwaysBookedIff(t, inputs);
  }

  /** A block in ESTABLISHED with nothing unacknowledged. */
  function Quiet(sndNxt: u32, rcvNxt: u32): Tcb {
    Tcb(true, Established, sndNxt, sndNxt, rcvNxt, None, 0)
  }

  /** Every such block is reached from an opening connection: the wrap is within reach of any application. */
  lemma {:induction false} QuietReachable(n: u32) returns (inputs: seq<Input>)
    requires 1 <= n
    ensures Feed(Connect(true).tcb, inputs) == Quiet(n, 1)
  {
    if n == 1 {
      inputs := [Hear(Segment(0, 1, SYN_ACK, []), true)];
      Opened(inputs[0]);
    } else {
      var before := QuietReachable(n - 1);
      inputs := OneByteMore(Connect(true).tcb, before, n - 1);
    }
  }

  lemma OneByteMore(t: Tcb, before: seq<Input>, n: u32) returns (inputs: seq<Input>)
    requires Feed(t, before) == Quiet(n, 1) && n + 1 < TWO32
    ensures Feed(t, inputs) == Quiet(n + 1, 1)
  {
    var say, hear := Say([7], true), Hear(Segment(1, n + 1, ACK, []), true);
    inputs := before + [say, hear];
    FeedTwo(t, before, say, hear);
    OneByteOn(n);
  }

  lemma Opened(synAck: Input)
    requires synAck == Hear(Segment(0, 1, SYN_ACK, []), true)
    ensures Feed(Connect(true).tcb, [synAck]) == Quiet(1, 1)
  {
    assert [synAck][..0] == [];
    assert FeedOne(Connect(true).tcb, synAck) == Quiet(1, 1);
  }

  lemma FeedTwo(t: Tcb, inputs: seq<Input>, one: Input, two: Input)
    ensures Feed(t, inputs + [one, two]) == FeedOne(FeedOne(Feed(t, inputs), one), two)
  {
    var all := inputs + [one, two];
    assert all[..|all| - 1] == inputs + [one] && (inputs + [one])[..|inputs|] == inputs;
  }

  lemma OneByteOn(n: u32)
    requires n + 1 < TWO32
    ensures FeedOne(FeedOne(Quiet(n, 1), Say([7], true)), Hear(Segment(1, n + 1, ACK, []), true)) == Quiet(n + 1, 1)
  {
  }

  /** An opened connection can come to a state in which one more byte makes `snd_nxt` wrap; the acknowledgement of
      that byte is then ignored and stays queued. */
  lemma WrapLosesAck() returns (inputs: seq<Input>)
    ensures var t := Feed(Connect(true).tcb, inputs);
            var sent, ack := Send(t, [7], true), Segment(1, 0, ACK, []);
            && sent.ok && sent.tcb.sndNxt == 0 && !Booked(sent.tcb)
            && Receive(sent.tcb, ack, true).tcb.sndUna == t.sndUna != 0 && Receive(sent.tcb, ack, true).tcb.slot != None
  {
    inputs := QuietReachable(0xFFFF_FFFF);
    SendBookedIff(Quiet(0xFFFF_FFFF, 1), [7]);
    FullAckIff(Quiet(0xFFFF_FFFF, 1), [7], Segment(1, 0, ACK, []), true);
  }

  /** The connection block as the source updates it, field by field. */
  class Connection {
    var valid: bool
    var state: State
    var sndUna: u32
    var sndNxt: u32
    var rcvNxt: u32
    var slot: Option<Tracked>
    var count: int

    ghost function View(): Tcb
      reads this
    {
      Tcb(valid, state, sndUna, sndNxt, rcvNxt, slot, count)
    }

    constructor ()
      ensures View() == RELEASED
    {
      valid, state, sndUna, sndNxt, rcvNxt, slot, count := false, Closed, 0, 0, 0, None, 0;
    }

    method Release()
      modifies this
      ensures View() == RELEASED
    {
      valid, state, sndUna, sndNxt, rcvNxt, slot, count := false, Closed, 0, 0, 0, None, 0;
    }

    method TrackSegment(seg: Segment, seqEnd: u32) returns (ok: bool)
      modifies this`slot, this`count
      ensures ok <==> Track(old(View()), seg, seqEnd).Some?
      ensures View() == if ok then Track(old(View()), seg, seqEnd).value else old(View())
    {
      if count >= 1 { return false; }
      if slot.Some? { return false; }
      slot := Some(Tracked(seg, seqEnd, false));
      count := count + 1;
      return true;
    }

    method AckSegments(ack: u32)
      modifies this`slot, this`count
      ensures View() == AckQueue(old(View()), ack)
    {
      if slot.Some? && ack >= slot.value.seqEnd {
        slot := None;
        count := count - 1;
      }
    }

    /** `tcp_send`. */
    method SendData(data: seq<byte>, canSend: bool) returns (ok: bool, sent: seq<Segment>)
      modifies this
      ensures Outcome(View(), sent, [], ok) == Send(old(View()), data, canSend)
    {
      sent := [];
      if !valid || state != Established { return false, []; }
      if |data| == 0 { return true, []; }
      var chunk := if |data| > MSS then data[..MSS] else data;
      if slot.Some? && !slot.value.acked { return false, []; }
      if !canSend { return false, []; }
      var seg := Segment(sndNxt, rcvNxt, PSH_ACK, chunk);
      sent := [seg];
      ok := TrackSegment(seg, Add32(sndNxt, |chunk|));
      if !ok { return; }
      sndNxt := Add32(sndNxt, |chunk|);
    }

    /** `tcp_close`. */
    method Shut(canSend: bool) returns (ok: bool, sent: seq<Segment>)
      modifies this
      ensures Outcome(View(), sent, [], ok) == Close(old(View()), canSend)
    {
      if !valid { return false, []; }
      if state != Established && state != CloseWait { return false, []; }
      if slot.Some? && !slot.value.acked { return false, []; }
      if !canSend { return false, []; }
      var seg := Segment(sndNxt, rcvNxt, FIN_ACK, []);
      sent := [seg];
      ok := TrackSegment(seg, Add32(sndNxt, 1));
      if !ok { return; }
      sndNxt := Add32(sndNxt, 1);
      state := if state == Established then FinWait1 else LastAck;
    }

    /** The states of `tcp_receive` in which an acknowledgement can complete the close. */
    method AckFin(seg: Segment, needsAckFlag: bool) returns (ok: bool, finAcked: bool)
      modifies this
      ensures ok <==> (seg.flags.ack || !needsAckFlag) && seg.ackNum > old(sndUna)
      ensures View() == if ok then AckQueue(old(View()), seg.ackNum).(sndUna := seg.ackNum) else old(View())
      ensures finAcked <==> ok && FinAcked(View())
    {
      if (needsAckFlag && !seg.flags.ack) || seg.ackNum <= sndUna { return false, false; }
      sndUna := seg.ackNum;
      AckSegments(seg.ackNum);
      return true, !(slot.Some? && slot.value.segment.flags.fin);
    }

    /** `tcp_receive` in ESTABLISHED. */
    method HearEstablished(seg: Segment, canSend: bool) returns (ok: bool, sent: seq<Segment>, delivered: seq<byte>)
      modifies this
      ensures Outcome(View(), sent, delivered, ok) == TakeData(TakeAck(old(View()), seg), seg, canSend)
    {
      if seg.flags.ack {
        if seg.ackNum > sndUna && seg.ackNum <= sndNxt {
          AckSegments(seg.ackNum);
          sndUna := seg.ackNum;
        }
      }
      if |seg.payload| > 0 {
        if seg.seqNum == rcvNxt {
          rcvNxt := Add32(rcvNxt, |seg.payload|);
          if !canSend { return false, [], []; }
          return true, [Segment(sndNxt, rcvNxt, ACK, [])], seg.payload;
        }
        if !canSend { return false, [], []; }
        return true, [Segment(sndNxt, rcvNxt, ACK, [])], [];
      }
      if seg.flags.fin && seg.seqNum == rcvNxt {
        rcvNxt := Add32(seg.seqNum, 1);
        if !canSend { return false, [], []; }
        state := CloseWait;
        return true, [Segment(sndNxt, rcvNxt, ACK, [])], [];
      }
      return !seg.flags.fin, [], [];
    }

    /** `tcp_receive` for a segment that belongs to this connection. */
    method Hearing(seg: Segment, canSend: bool) returns (ok: bool, sent: seq<Segment>, delivered: seq<byte>)
      modifies this
      ensures Outcome(View(), sent, delivered, ok) == Receive(old(View()), seg, canSend)
    {
      ok, sent, delivered := false, [], [];
      match state {
        case SynSent =>
          if seg.flags.syn && seg.flags.ack && seg.ackNum == sndNxt {
            rcvNxt := Add32(seg.seqNum, 1);
            sndUna := seg.ackNum;
            AckSegments(seg.ackNum);
            state := Established;
            if canSend { ok, sent := true, [Segment(sndNxt, rcvNxt, ACK, [])]; }
          }
        case SynReceived =>
          if seg.flags.ack && seg.ackNum == sndNxt {
            sndUna := seg.ackNum;
            AckSegments(seg.ackNum);
            state := Established;
            ok := true;
          }
        case Established =>
          ok, sent, delivered := HearEstablished(seg, canSend);
        case FinWait1 =>
          var finAcked;
          ok, finAcked := AckFin(seg, true);
          if finAcked { state := FinWait2; }
        case FinWait2 =>
          ok := true;
          if seg.flags.fin && seg.seqNum == rcvNxt {
            rcvNxt := Add32(seg.seqNum, 1);
            if !canSend { return false, [], []; }
            sent := [Segment(sndNxt, rcvNxt, ACK, [])];
            state := TimeWait;
          }
        case Closing =>
          var finAcked;
          ok, finAcked := AckFin(seg, false);
          if finAcked { state := TimeWait; }
        case LastAck =>
          var finAcked;
          ok, finAcked := AckFin(seg, true);
          if finAcked { Release(); }
        case TimeWait =>
          ok := true;
        case _ =>
      }
    }
  }
}
