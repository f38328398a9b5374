/** What retransmitting is for: whatever is still on its way, a send can get through although its first
    ACK is lost (sendDataAndWaitAck of src/internal/mactelnet/session.go, and the ACK for a duplicate in
    processInboundData of src/internal/mactelnet/loop.go). */
module Recovery {
  import opened Uint32
  import opened Sequencing
  import opened StopAndWait
  import opened Wrappers

  /** Everything on its way is lost, and the stale ACKs are drained. */
  function Silent(s: State): State {
    s.(ackCh := [], data := [], acks := [])
  }

  lemma {:induction false} Silenced(start: State, before: seq<Step>, s: State) returns (run: seq<Step>)
    requires Exec(start, before) == Some(s) && s.phase.Idle?
    ensures Exec(start, run) == Some(Silent(s))
    decreases |s.data| + |s.acks| + |s.ackCh|
  {
    if s.data == [] && s.acks == [] && s.ackCh == [] {
      return before;
    }
    var step := if s.data != [] then LoseData(0) else if s.acks != [] then LoseAck(0) else Drain;
    ExecSnoc(start, before, step);
    run := Silenced(start, before + [step], Apply(s, step));
  }

  /** A send until its first ACK is lost, and from there until it returns. */
  const FIRST_TRY: seq<Step> := [Transmit, PeerReceive, LoseAck(0)]
  const SECOND_TRY: seq<Step> := [Transmit, PeerReceive, ReceiveAck, ConsumeAck]

  lemma Three(start: State, run: seq<Step>, s: State, a: Step, b: Step, c: Step)
    requires Exec(start, run) == Some(s)
    requires Enabled(s, a) && Enabled(Apply(s, a), b) && Enabled(Apply(Apply(s, a), b), c)
    ensures Exec(start, run + [a, b, c]) == Some(Apply(Apply(Apply(s, a), b), c))
  {
    ExecSnoc(start, run, a);
    ExecSnoc(start, run + [a], b);
    ExecSnoc(start, run + [a] + [b], c);
    assert run + [a] + [b] + [c] == run + [a, b, c];
  }

  /** What a peer that has looked at a counter does not take again. */
  lemma NotTwice(m: Incoming, counter: uint32)
    ensures !IsNew(AfterIncoming(m, counter), counter)
  {
  }

  /** The first transmission reaches the peer, but its ACK does not come back. */
  lemma FirstTryTo(start: State, run: seq<Step>, s: State) returns (t: State)
    requires Exec(start, run) == Some(s) && s.phase.Waiting? && s.sent != [] && s == Silent(s)
    ensures Exec(start, run + FIRST_TRY) == Some(t) && t == Silent(t)
    ensures t.phase == s.phase && t.sent == s.sent && t.acked == s.acked
    ensures t.mark == AfterIncoming(s.mark, s.phase.pkt.counter)
    ensures t.delivered == s.delivered + if IsNew(s.mark, s.phase.pkt.counter) then [s.phase.pkt.payload] else []
  {
    Three(start, run, s, Transmit, PeerReceive, LoseAck(0));
    t := Apply(Apply(Apply(s, Transmit), PeerReceive), LoseAck(0));
  }

  /** The retransmission is a duplicate to the peer: it hands nothing on, and sends the ACK again. */
  lemma SecondTryTo(start: State, run: seq<Step>, s: State) returns (t: State)
    requires Exec(start, run) == Some(s) && s.phase.Waiting? && s.sent != [] && s == Silent(s)
    requires !IsNew(s.mark, s.phase.pkt.counter)
    requires s.phase.want == AckCounterFor(s.phase.pkt.counter, ToUint32(|s.phase.pkt.payload|))
    ensures Exec(start, run + SECOND_TRY) == Some(t) && t == Silent(t)
    ensures t.phase.Idle? && t.sent == s.sent && t.delivered == s.delivered
    ensures t.acked == s.acked + [|s.sent| - 1]
  {
    Three(start, run, s, Transmit, PeerReceive, ReceiveAck);
    var waiting := Apply(Apply(Apply(s, Transmit), PeerReceive), ReceiveAck);
    ExecSnoc(start, run + [Transmit, PeerReceive, ReceiveAck], ConsumeAck);
    assert run + [Transmit, PeerReceive, ReceiveAck] + [ConsumeAck] == run + SECOND_TRY;
    t := Apply(waiting, ConsumeAck);
  }

  /** Within the flow condition a new send is new to the peer. */
  lemma NewSendIsNew(s: State, p: seq<byte>)
    requires FifoInv(s) && s.phase.Idle? && Enabled(s, Begin(p)) && InWindow(s, Begin(p))
    ensures IsNew(s.mark, s.out)
  {
    var quiet := Silent(s);
    NothingNewKeepsFifoInv(s, quiet);
    BeginKeepsFifoInv(quiet, p);
    var begun := Apply(quiet, Begin(p));
    TransmitKeepsFifoInv(begun);
    HeadIsNewIffUnseen(Apply(begun, Transmit));
  }

  lemma TwoTries(start: State, run: seq<Step>, s: State) returns (t: State)
    requires Exec(start, run) == Some(s) && s.phase.Waiting? && s.sent != [] && s == Silent(s)
    requires IsNew(s.mark, s.phase.pkt.counter)
    requires s.phase.want == AckCounterFor(s.phase.pkt.counter, ToUint32(|s.phase.pkt.payload|))
    ensures Exec(start, run + FIRST_TRY + SECOND_TRY) == Some(t)
    ensures t.phase.Idle? && t.sent == s.sent && t.acked == s.acked + [|s.sent| - 1]
    ensures t.delivered == s.delivered + [s.phase.pkt.payload]
  {
    NotTwice(s.mark, s.phase.pkt.counter);
    var lost := FirstTryTo(start, run, s);
    t := SecondTryTo(start, run + FIRST_TRY, lost);
  }

  lemma Begun(start: State, run: seq<Step>, s: State, p: seq<byte>) returns (t: State)
    requires Exec(start, run) == Some(s) && s.phase.Idle? && Enabled(s, Begin(p)) && s == Silent(s)
    ensures Exec(start, run + [Begin(p)]) == Some(t) && t == Silent(t)
    ensures t.phase == Waiting(Datagram(s.out, p), AckCounterFor(s.out, ToUint32(|p|)))
    ensures t.sent == s.sent + [p] && t.acked == s.acked && t.mark == s.mark && t.delivered == s.delivered
  {
    ExecSnoc(start, run, Begin(p));
    t := Apply(s, Begin(p));
  }

  lemma AcrossSilence(start: State, run: seq<Step>, s: State, p: seq<byte>) returns (t: State)
    requires Exec(start, run) == Some(s) && s.phase.Idle? && Enabled(s, Begin(p)) && s == Silent(s)
    requires IsNew(s.mark, s.out)
    ensures Exec(start, run + [Begin(p)] + FIRST_TRY + SECOND_TRY) == Some(t)
    ensures t.phase.Idle? && t.sent == s.sent + [p] && t.acked == s.acked + [|s.sent|]
    ensures t.delivered == s.delivered + [p]
  {
    var begun := Begun(start, run, s, p);
    t := TwoTries(start, run + [Begin(p)], begun);
  }

  /** From every state a run over order-keeping channels can reach between two sends, any payload within
      the flow condition can be sent so that its first ACK is lost, and still the send returns nil and the
      peer has handed the payload on, once. */
  lemma SendGetsThrough(before: seq<Step>, s: State, p: seq<byte>) returns (run: seq<Step>, t: State)
    requires Reaches(before, s, FifoStep) && s.phase.Idle? && Enabled(s, Begin(p)) && InWindow(s, Begin(p))
    ensures Exec(s, run + [Begin(p)] + FIRST_TRY + SECOND_TRY) == Some(t)
    ensures t.phase.Idle? && t.sent == s.sent + [p] && t.acked == s.acked + [|s.sent|]
    ensures t.delivered == s.delivered + [p]
  {
    FifoInvReached(before, s);
    NewSendIsNew(s, p);
    run := Silenced(s, [], s);
    t := AcrossSilence(s, run, Silent(s), p);
  }
}
