/** The flow condition of StopAndWait cannot be relaxed by a single byte. */
module WindowBound {
  import opened Uint32
  import opened Sequencing
  import opened StopAndWait

  predicate AlmostFifoStep(s: State, step: Step) {
    KeepsOrder(step) && StartsWithin(s, step, WINDOW + 1)
  }

  predicate OneByteEach(sent: seq<seq<byte>>) {
    forall k :: 0 <= k < |sent| ==> sent[k] == [0]
  }

  lemma TotalOfOneByteEach(sent: seq<seq<byte>>, k: nat)
    requires OneByteEach(sent) && k <= |sent|
    ensures Offset(sent, k) == k
  {
  }

  /** All sends so far carried one byte, the last of them has returned, and at most this many
      bytes were sent since the last acknowledged one. */
  predicate Ready(s: State, ahead: nat) {
    && s.phase.Idle? && OneByteEach(s.sent) && Below(s.acked, |s.sent|)
    && |s.sent| - (if s.acked == [] then 0 else Last(s.acked)) <= ahead
  }

  lemma OneByteWithin(s: State)
    requires Ready(s, WINDOW + 1)
    ensures AlmostFifoStep(s, Begin([0]))
  {
    TotalOfOneByteEach(s.sent, |s.sent|);
    if s.acked != [] {
      TotalOfOneByteEach(s.sent, Last(s.acked));
    }
  }

  /** The state after `n` more one-byte sends that were given up before anything was transmitted. */
  function Burnt(s: State, n: nat): State {
    s.(out := (s.out + n) % TWO32, sent := s.sent + seq(n, _ => [0]))
  }

  lemma BurnOne(run: seq<Step>, s: State) returns (longer: seq<Step>)
    requires Reaches(run, s, AlmostFifoStep) && Ready(s, WINDOW + 1)
    ensures Reaches(longer, s.(out := Add32(s.out, 1), sent := s.sent + [[0]]), AlmostFifoStep)
  {
    OneByteWithin(s);
    ReachesSnoc(run, s, Begin([0]), AlmostFifoStep);
    var waiting := Apply(s, Begin([0]));
    ReachesSnoc(run + [Begin([0])], waiting, GiveUp, AlmostFifoStep);
    longer := run + [Begin([0])] + [GiveUp];
    assert Apply(waiting, GiveUp) == s.(out := Add32(s.out, 1), sent := s.sent + [[0]]);
  }

  lemma BurntReady(s: State, n: nat, ahead: nat)
    requires Ready(s, ahead)
    ensures Ready(Burnt(s, n), ahead + n)
  {
  }

  lemma BurntNext(s: State, n: nat)
    ensures Burnt(s, n).(out := Add32(Burnt(s, n).out, 1), sent := Burnt(s, n).sent + [[0]]) == Burnt(s, n + 1)
  {
    AddReduced(s.out + n, 1);
    assert s.sent + seq(n, _ => [0]) + [[0]] == s.sent + seq(n + 1, _ => [0]);
  }

  lemma {:induction false} Burn(run: seq<Step>, s: State, n: nat) returns (longer: seq<Step>)
    requires Reaches(run, s, AlmostFifoStep)
    requires n <= WINDOW + 1 && Ready(s, WINDOW + 1 - n)
    ensures Reaches(longer, Burnt(s, n), AlmostFifoStep)
  {
    if n == 0 {
      longer := run;
      assert Burnt(s, 0) == s;
    } else {
      longer := Burn(run, s, n - 1);
      BurntReady(s, n - 1, WINDOW + 1 - n);
      longer := BurnOne(longer, Burnt(s, n - 1));
      BurntNext(s, n - 1);
    }
  }

  /** A one-byte send that reaches the peer and whose ACK comes back. */
  function Sent(s: State): State
    requires s.phase.Idle?
  {
    s.(out := Add32(s.out, 1), mark := AfterIncoming(s.mark, s.out),
       delivered := if IsNew(s.mark, s.out) then s.delivered + [[0]] else s.delivered,
       sent := s.sent + [[0]], acked := s.acked + [|s.sent|],
       accepted := if IsNew(s.mark, s.out) then s.accepted + [|s.sent|] else s.accepted)
  }

  predicate Quiet(s: State) {
    s.phase.Idle? && s.data == [] && s.acks == [] && s.ackCh == []
  }

  /** The same send once it is on its way, and once it is answered. */
  function OnItsWay(s: State): State {
    var pkt := Datagram(s.out, [0]);
    s.(out := Add32(s.out, 1), phase := Waiting(pkt, Add32(s.out, 1)), data := [Copy(pkt, |s.sent|)],
       sent := s.sent + [[0]])
  }

  function Answered(s: State): State
    requires s.phase.Idle?
  {
    Sent(s).(phase := Waiting(Datagram(s.out, [0]), Add32(s.out, 1)), acked := s.acked,
             acks := [Copy(Add32(s.out, 1), |s.sent|)])
  }

  lemma SendSteps(s: State)
    requires Quiet(s)
    ensures Enabled(Apply(s, Begin([0])), Transmit)
    ensures Apply(Apply(s, Begin([0])), Transmit) == OnItsWay(s)
  {
  }

  lemma PeerStep(s: State)
    requires Quiet(s)
    ensures Apply(OnItsWay(s), PeerReceive) == Answered(s)
  {
  }

  lemma AckSteps(s: State)
    requires Quiet(s)
    ensures Enabled(Apply(Answered(s), ReceiveAck), ConsumeAck)
    ensures Apply(Apply(Answered(s), ReceiveAck), ConsumeAck) == Sent(s)
  {
  }

  lemma SendOne(run: seq<Step>, s: State) returns (longer: seq<Step>)
    requires Reaches(run, s, AlmostFifoStep) && Ready(s, WINDOW + 1) && Quiet(s)
    ensures Reaches(longer, Sent(s), AlmostFifoStep)
  {
    OneByteWithin(s);
    longer := Extend(run, s, Begin([0]));
    SendSteps(s);
    longer := Extend(longer, Apply(s, Begin([0])), Transmit);
    longer := Extend(longer, OnItsWay(s), PeerReceive);
    PeerStep(s);
    longer := Extend(longer, Answered(s), ReceiveAck);
    AckSteps(s);
    longer := Extend(longer, Apply(Answered(s), ReceiveAck), ConsumeAck);
  }

  lemma Extend(run: seq<Step>, s: State, step: Step) returns (longer: seq<Step>)
    requires Reaches(run, s, AlmostFifoStep) && Enabled(s, step) && AlmostFifoStep(s, step)
    ensures Reaches(longer, Apply(s, step), AlmostFifoStep)
  {
    ReachesSnoc(run, s, step, AlmostFifoStep);
    longer := run + [step];
  }

  lemma BurntFromStart()
    ensures var s := Burnt(INIT, 65535);
            && s.out == 65535 && |s.sent| == 65535 && s.mark == Incoming(0, false)
            && s.acked == [] && s.accepted == [] && s.delivered == []
            && Quiet(s) && Ready(s, WINDOW + 1)
  {
  }

  /** The one-byte send that finds nothing seen before is handed on. */
  lemma SentIsTaken(s: State)
    requires s.phase.Idle? && s.mark == Incoming(0, false) && OneByteEach(s.sent)
    requires s.out == |s.sent| == 65535 && s.acked == [] && s.accepted == [] && s.delivered == []
    ensures var t := Sent(s);
            && t.out == |t.sent| == 65536 && t.mark == Incoming(65535, true) && Ready(t, 1)
            && t.acked == t.accepted == [65535] && t.delivered == [[0]]
  {
  }

  lemma FirstDelivery() returns (run: seq<Step>, s: State)
    ensures Reaches(run, s, AlmostFifoStep) && Quiet(s) && Ready(s, 1)
    ensures s.out == |s.sent| == 65536 && s.mark == Incoming(65535, true)
    ensures s.acked == s.accepted == [65535] && s.delivered == [[0]]
  {
    run := Burn([], INIT, 65535);
    BurntFromStart();
    run := SendOne(run, Burnt(INIT, 65535));
    SentIsTaken(Burnt(INIT, 65535));
    s := Sent(Burnt(INIT, 65535));
  }

  /** The one-byte send whose counter is 0 again is taken for a stale copy. */
  lemma SentIsStale(s: State)
    requires s.phase.Idle? && s.mark == Incoming(65535, true) && s.out == 0
    ensures Sent(s).acked == s.acked + [|s.sent|]
    ensures Sent(s).accepted == s.accepted && Sent(s).delivered == s.delivered
  {
    assert !IsNew(s.mark, s.out);
  }

  lemma BurntWraps(s: State, n: nat)
    requires s.out + n == TWO32 && Quiet(s)
    ensures var b := Burnt(s, n);
            && b.out == 0 && |b.sent| == |s.sent| + n && Quiet(b)
            && b.mark == s.mark && b.acked == s.acked && b.accepted == s.accepted && b.delivered == s.delivered
  {
  }

  lemma StaleDelivery(run: seq<Step>, s: State) returns (longer: seq<Step>, t: State)
    requires Reaches(run, s, AlmostFifoStep) && Quiet(s) && Ready(s, WINDOW + 1)
    requires s.mark == Incoming(65535, true) && s.out == 0
    ensures Reaches(longer, t, AlmostFifoStep)
    ensures t.acked == s.acked + [|s.sent|] && t.accepted == s.accepted && t.delivered == s.delivered
  {
    longer := SendOne(run, s);
    SentIsStale(s);
    t := Sent(s);
  }

  /** The sends that bring the counter round to 0. */
  lemma BurnToWrap(run: seq<Step>, s: State, n: nat) returns (longer: seq<Step>, t: State)
    requires Reaches(run, s, AlmostFifoStep) && Quiet(s)
    requires n <= WINDOW && Ready(s, 1) && s.out + n == TWO32
    ensures Reaches(longer, t, AlmostFifoStep) && Quiet(t) && Ready(t, WINDOW + 1)
    ensures t.out == 0 && |t.sent| == |s.sent| + n && t.mark == s.mark
    ensures t.acked == s.acked && t.accepted == s.accepted && t.delivered == s.delivered
  {
    BurntReady(s, n, 1);
    BurntWraps(s, n);
    longer := Burn(run, s, n);
    t := Burnt(s, n);
  }

  lemma SecondDelivery(run: seq<Step>, s: State, n: nat) returns (longer: seq<Step>, t: State)
    requires Reaches(run, s, AlmostFifoStep) && Quiet(s)
    requires n <= WINDOW && Ready(s, 1) && s.out + n == TWO32 && s.mark == Incoming(65535, true)
    ensures Reaches(longer, t, AlmostFifoStep)
    ensures t.acked == s.acked + [|s.sent| + n]
    ensures t.accepted == s.accepted && t.delivered == s.delivered
  {
    var wrapped: State;
    longer, wrapped := BurnToWrap(run, s, n);
    longer, t := StaleDelivery(longer, wrapped);
  }

  /** With the flow condition relaxed by one byte a send can return nil although the peer never
      handed its payload on: the first send that starts 2^32 - 65535 bytes after the start of the
      last acknowledged one is taken for a stale copy, ACKed and dropped. */
  lemma WindowIsTight() returns (run: seq<Step>, t: State)
    ensures Reaches(run, t, AlmostFifoStep)
    ensures t.acked == [65535, TWO32]
    ensures t.accepted == [65535] && t.delivered == [[0]]
  {
    var s: State;
    run, s := FirstDelivery();
    run, t := SecondDelivery(run, s, WINDOW);
  }
}
