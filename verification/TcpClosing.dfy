/** Closing succeeds: every quiet pair of endpoints can close down completely, whoever begins. */
module TcpClosing {
  import opened NetTypes
  import opened TcpEndpoint
  import opened TcpNetwork

  ghost function SentBy(s: System, atA: bool): set<Segment> {
    if atA then s.fromA else s.fromB
  }

  /** One more event at one endpoint: that endpoint steps, the other does not. */
  lemma Act(run: seq<Move>, who: bool, e: Event) returns (run': seq<Move>)
    requires IsRun(run) && Enabled(PeerOf(Exec(run), who), e, SentBy(Exec(run), !who))
    ensures IsRun(run') && run <= run' && PeerOf(Exec(run'), !who) == PeerOf(Exec(run), !who)
    ensures PeerOf(Exec(run'), who) == Step(PeerOf(Exec(run), who), e).0
    ensures SentBy(Exec(run'), !who) == SentBy(Exec(run), !who)
    ensures forall seg :: seg in Step(PeerOf(Exec(run), who), e).1 ==> seg in SentBy(Exec(run'), who)
  {
    Extend(run, Move(who, e));
    run' := run + [Move(who, e)];
  }

  /** An endpoint in ESTABLISHED that has had everything it sent acknowledged. */
  ghost predicate AtRest(x: Peer) {
    x.tcb.state == Established && x.tcb.sndUna == x.tcb.sndNxt
  }

  /** Two endpoints at rest are exactly complementary. */
  lemma RestIsQuiet(run: seq<Move>, who: bool)
    requires IsRun(run) && AtRest(PeerOf(Exec(run), who)) && AtRest(PeerOf(Exec(run), !who))
    ensures var x, y := PeerOf(Exec(run), who), PeerOf(Exec(run), !who);
            && x.tcb == Quiet(x.tcb.sndNxt, y.tcb.sndNxt) && y.tcb == Quiet(y.tcb.sndNxt, x.tcb.sndNxt)
            && x.tcb.sndNxt + 1 < TWO32 && y.tcb.sndNxt + 1 < TWO32 && !x.released && !y.released
  {
    ReachableInv(run);
  }

  /** The bytes of an endpoint and what it accepted, with both FINs exchanged and the block released. */
  ghost predicate ClosedFrom(x: Peer, x': Peer) {
    x'.released && x'.finSent && x'.finAccepted && x'.taken == x.taken && x'.accepted == x.accepted
  }

  /** The first close: its FIN is taken and acknowledged, and the first side waits for the other to close. */
  lemma FirstClose(run: seq<Move>, who: bool, n: u32, m: u32) returns (run': seq<Move>)
    requires IsRun(run) && n + 1 < TWO32
    requires PeerOf(Exec(run), who).tcb == Quiet(n, m) && PeerOf(Exec(run), !who).tcb == Quiet(m, n)
    ensures IsRun(run') && run <= run'
    ensures PeerOf(Exec(run'), who) ==
            PeerOf(Exec(run), who).(tcb := Quiet(n + 1, m).(state := FinWait2), finSent := true)
    ensures PeerOf(Exec(run'), !who) ==
            PeerOf(Exec(run), !who).(tcb := Quiet(m, n + 1).(state := CloseWait), finAccepted := true)
  {
    var x, y := PeerOf(Exec(run), who), PeerOf(Exec(run), !who);
    var fin, ack := Segment(n, m, FIN_ACK, []), Segment(m, n + 1, ACK, []);
    FirstCloseSteps(x, y, n, m, fin, ack);
    run' := Act(run, who, AppClose);
    run' := Act(run', !who, Arrive(fin));
    run' := Act(run', who, Arrive(ack));
  }

  lemma FirstCloseSteps(x: Peer, y: Peer, n: u32, m: u32, fin: Segment, ack: Segment)
    requires n + 1 < TWO32 && x.tcb == Quiet(n, m) && y.tcb == Quiet(m, n)
    requires fin == Segment(n, m, FIN_ACK, []) && ack == Segment(m, n + 1, ACK, [])
    ensures Step(x, AppClose).1 == [fin] && Step(x, AppClose).0.tcb.valid
    ensures Step(y, Arrive(fin)) == (y.(tcb := Quiet(m, n + 1).(state := CloseWait), finAccepted := true), [ack])
    ensures Step(Step(x, AppClose).0, Arrive(ack)).0 ==
            x.(tcb := Quiet(n + 1, m).(state := FinWait2), finSent := true)
  {
    assert x.accepted + [] == x.accepted && y.accepted + [] == y.accepted;
  }

  /** The second close: its FIN is taken and acknowledged, the last acknowledgement releases the second side, and the
      timer releases the first. */
  lemma SecondClose(run: seq<Move>, who: bool, n: u32, m: u32) returns (run': seq<Move>)
    requires IsRun(run) && m + 1 < TWO32
    requires PeerOf(Exec(run), who).tcb == Quiet(n, m).(state := FinWait2) && PeerOf(Exec(run), who).finSent
    requires PeerOf(Exec(run), !who).tcb == Quiet(m, n).(state := CloseWait) && PeerOf(Exec(run), !who).finAccepted
    ensures IsRun(run') && run <= run'
    ensures ClosedFrom(PeerOf(Exec(run), who), PeerOf(Exec(run'), who))
    ensures ClosedFrom(PeerOf(Exec(run), !who), PeerOf(Exec(run'), !who))
  {
    var x, y := PeerOf(Exec(run), who), PeerOf(Exec(run), !who);
    var fin, ack := Segment(m, n, FIN_ACK, []), Segment(n, m + 1, ACK, []);
    LastAckSteps(y, n, m, fin, ack);
    TimeWaitSteps(x, n, m, fin, ack);
    run' := Act(run, !who, AppClose);
    run' := Act(run', who, Arrive(fin));
    run' := Act(run', !who, Arrive(ack));
    run' := Act(run', who, TimeWaitTimer);
  }

  lemma LastAckSteps(y: Peer, n: u32, m: u32, fin: Segment, ack: Segment)
    requires m + 1 < TWO32 && y.tcb == Quiet(m, n).(state := CloseWait) && y.finAccepted
    requires fin == Segment(m, n, FIN_ACK, []) && ack == Segment(n, m + 1, ACK, [])
    ensures Step(y, AppClose).1 == [fin] && Step(y, AppClose).0.tcb.valid
    ensures ClosedFrom(y, Step(Step(y, AppClose).0, Arrive(ack)).0)
  {
    assert y.accepted + [] == y.accepted;
  }

  lemma TimeWaitSteps(x: Peer, n: u32, m: u32, fin: Segment, ack: Segment)
    requires m + 1 < TWO32 && x.tcb == Quiet(n, m).(state := FinWait2) && x.finSent
    requires fin == Segment(m, n, FIN_ACK, []) && ack == Segment(n, m + 1, ACK, [])
    ensures Step(x, Arrive(fin)).1 == [ack] && Step(x, Arrive(fin)).0.tcb.valid
    ensures ClosedFrom(x, Step(Step(x, Arrive(fin)).0, TimeWaitTimer).0)
  {
    assert x.accepted + [] == x.accepted;
  }

  /** From every reachable state in which both ends are at rest the connection can be closed, whichever side begins:
      both blocks are released, both FINs accepted, and no byte is lost or added. */
  lemma CanClose(run: seq<Move>, who: bool) returns (run': seq<Move>)
    requires IsRun(run) && AtRest(PeerOf(Exec(run), who)) && AtRest(PeerOf(Exec(run), !who))
    ensures IsRun(run') && run <= run'
    ensures ClosedFrom(PeerOf(Exec(run), who), PeerOf(Exec(run'), who))
    ensures ClosedFrom(PeerOf(Exec(run), !who), PeerOf(Exec(run'), !who))
  {
    var n, m := PeerOf(Exec(run), who).tcb.sndNxt, PeerOf(Exec(run), !who).tcb.sndNxt;
    RestIsQuiet(run, who);
    run' := FirstClose(run, who, n, m);
    run' := SecondClose(run', who, n + 1, m);
  }
}
