/** The protocol over channels that also reorder, for a sender that only moves on once it has
    its ACK. The transition system is that of StopAndWait with the swaps allowed. */
module Reordering {
  import opened Uint32
  import opened Sequencing
  import opened StopAndWait

  /** How far behind the peer's mark the oldest datagram in the channel starts, if it is behind. */
  predicate FreshEnough(s: State) {
    s.data != [] && s.accepted != [] && s.data[0].origin <= Last(s.accepted) < |s.sent| ==>
      Offset(s.sent, Last(s.accepted)) - Offset(s.sent, s.data[0].origin) <= 65535
  }

  /** No send is given up, the stream stays under 2^32 bytes, and no copy arrives too late. */
  predicate PatientStep(s: State, step: Step) {
    && !step.GiveUp?
    && (step.Begin? ==> Total(s.sent) + |step.payload| < TWO32)
    && (step.PeerReceive? ==> FreshEnough(s))
  }

  function FirstN(n: nat): seq<nat> {
    seq(n, i requires 0 <= i < n => i)
  }

  ghost predicate PatientInv(s: State) {
    && WireInv(s)
    && Total(s.sent) < TWO32
    && s.acked == FirstN(|s.acked|) && s.accepted == FirstN(|s.accepted|)
    && |s.acked| == Finished(s) <= |s.accepted| <= |s.sent|
    && (forall a :: a in AckStream(s) ==> a.origin < |s.accepted|)
  }

  lemma EndsDiffer(sent: seq<seq<byte>>, i: nat)
    requires Sized(sent) && Total(sent) < TWO32 && i < |sent| && AckOf(sent, i) == AckOf(sent, |sent| - 1)
    ensures i == |sent| - 1
  {
    OffsetGrows(sent, i + 1, |sent|);
  }

  /** Without wrapping, the counter an ACK carries names the send it answers. */
  lemma OwnAckMatches(s: State)
    requires PatientInv(s) && Enabled(s, ConsumeAck) && s.ackCh[0].msg == s.phase.want
    ensures s.ackCh[0].origin == |s.sent| - 1
  {
    assert AckStream(s)[0] == s.ackCh[0];
    assert AckOk(s.sent, s.ackCh[0]);
    EndsDiffer(s.sent, s.ackCh[0].origin);
  }

  lemma ConsumeKeepsPatientInv(s: State)
    requires PatientInv(s) && Enabled(s, ConsumeAck)
    ensures PatientInv(Apply(s, ConsumeAck))
  {
    WireInvStep(s, ConsumeAck);
    assert forall a :: a in AckStream(Apply(s, ConsumeAck)) ==> a in AckStream(s);
    assert s.ackCh[0] in AckStream(s);
    if s.ackCh[0].msg == s.phase.want {
      OwnAckMatches(s);
      assert FirstN(|s.acked|) + [|s.acked|] == FirstN(|s.acked| + 1);
    }
  }

  /** On one lap the wire carries the stream offset itself. */
  lemma NoLap(s: State, k: nat)
    requires PatientInv(s) && k < |s.sent|
    ensures 0 <= Offset(s.sent, k) < TWO32
    ensures WireOf(s.sent, k).counter == Offset(s.sent, k)
    ensures s.accepted != [] && k == Last(s.accepted) ==> s.mark == Incoming(Offset(s.sent, k), true)
  {
    OffsetGrows(s.sent, k, |s.sent|);
  }

  lemma NextIsTaken(s: State, c: Copy<Datagram>)
    requires PatientInv(s) && CopyOk(s.sent, c) && c.origin >= |s.accepted|
    ensures IsNew(s.mark, c.msg.counter) && c.origin == |s.accepted|
  {
    NoLap(s, c.origin);
    if s.accepted != [] {
      var last := Last(s.accepted);
      NoLap(s, last);
      OffsetGrows(s.sent, last, c.origin);
      AheadOnLapIsNew(Offset(s.sent, last), Offset(s.sent, c.origin));
    }
  }

  lemma AheadOnLapIsNew(from: nat, to: nat)
    requires from < to < TWO32
    ensures IsNew(Incoming(from, true), to)
  {
    assert (from - to) % TWO32 == from - to + TWO32;
  }

  /** A datagram is taken exactly if it is the next one, or one handed on before that starts more
      than 65535 bytes behind the mark. The second case is the duplicate FreshEnough excludes, so
      that condition cannot be relaxed. */
  lemma TakenIff(s: State)
    requires PatientInv(s) && s.data != []
    ensures IsNew(s.mark, s.data[0].msg.counter) <==> s.data[0].origin == |s.accepted| || !FreshEnough(s)
    ensures !FreshEnough(s) ==> s.data[0].origin in s.accepted
  {
    var c := s.data[0];
    assert CopyOk(s.sent, c);
    if c.origin >= |s.accepted| {
      NextIsTaken(s, c);
    } else {
      var last := Last(s.accepted);
      assert s.accepted[c.origin] == c.origin;
      NoLap(s, last);
      NoLap(s, c.origin);
      OffsetGrows(s.sent, c.origin, last);
      BehindIsStale(Offset(s.sent, last), Offset(s.sent, c.origin));
    }
  }

  /** The next datagram is taken, and any other one leaves everything but the ACKs as it is. */
  lemma PeerTakesNext(s: State)
    requires PatientInv(s) && s.data != [] && FreshEnough(s)
    ensures var t, n := Apply(s, PeerReceive), |s.accepted|;
            && s.data[0].origin <= n
            && t.accepted == FirstN(if s.data[0].origin == n then n + 1 else n)
            && |t.accepted| <= |s.sent|
  {
    var c := s.data[0];
    assert CopyOk(s.sent, c);
    TakenIff(s);
    if c.origin >= |s.accepted| {
      NextIsTaken(s, c);
    }
    assert FirstN(|s.accepted|) + [|s.accepted|] == FirstN(|s.accepted| + 1);
  }

  lemma PeerKeepsPatientInv(s: State)
    requires PatientInv(s) && s.data != [] && FreshEnough(s)
    ensures PatientInv(Apply(s, PeerReceive))
  {
    var t := Apply(s, PeerReceive);
    WireInvStep(s, PeerReceive);
    PeerTakesNext(s);
    var ack := t.acks[|s.acks|];
    assert AckStream(t) == AckStream(s) + [ack];
    forall a | a in AckStream(t)
      ensures a.origin < |t.accepted|
    {
      assert a == ack || a in AckStream(s);
    }
  }

  lemma PatientInvStep(s: State, step: Step)
    requires PatientInv(s) && Enabled(s, step) && PatientStep(s, step)
    ensures PatientInv(Apply(s, step))
  {
    if step.ConsumeAck? {
      ConsumeKeepsPatientInv(s);
    } else if step.PeerReceive? {
      PeerKeepsPatientInv(s);
    } else {
      WireInvStep(s, step);
      if step.Begin? {
        OffsetOfPrefix(s.sent, step.payload, |s.sent|);
      } else if step.SwapData? || step.SwapAck? || OnlyChannels(step) {
        ChannelStep(s, step);
      }
    }
  }

  lemma {:induction false} PatientInvReached(run: seq<Step>, t: State)
    requires Reaches(run, t, PatientStep)
    ensures PatientInv(t)
  {
    if run != [] {
      var s := ReachesInit(run, t, PatientStep);
      PatientInvReached(run[..|run| - 1], s);
      PatientInvStep(s, run[|run| - 1]);
    }
  }

  /** The main theorem for channels that lose, duplicate and reorder: what the peer handed on is
      exactly a prefix of what was sent, each payload once, and it is never shorter than what was
      acknowledged nor, by more than one, longer. */
  lemma InOrderPrefix(run: seq<Step>, t: State)
    requires Reaches(run, t, PatientStep)
    ensures |t.delivered| <= |t.sent| && t.delivered == t.sent[..|t.delivered|]
    ensures t.acked == FirstN(|t.acked|)
    ensures |t.acked| <= |t.delivered| <= |t.acked| + 1
  {
    PatientInvReached(run, t);
  }

  // -------------------------------------------------- senders that give up and go on

  /** The same conditions for a sender that may give sends up. */
  predicate RestlessStep(s: State, step: Step) {
    && (step.Begin? ==> Total(s.sent) + |step.payload| < TWO32)
    && (step.PeerReceive? ==> FreshEnough(s))
  }

  /** ACKs under way answer sends no later than the last accepted one. */
  ghost predicate AcksBehind(s: State) {
    forall a :: a in AckStream(s) ==> s.accepted != [] && a.origin <= Last(s.accepted)
  }

  ghost predicate AckedAccepted(s: State) {
    && Increasing(s.acked) && (forall k :: k in s.acked ==> k in s.accepted)
    && Below(s.acked, |s.sent|) && (s.phase.Waiting? ==> s.sent != [] && Below(s.acked, |s.sent| - 1))
  }

  ghost predicate RestlessInv(s: State) {
    && WireInv(s) && Total(s.sent) < TWO32
    && Increasing(s.accepted) && AcksBehind(s) && AckedAccepted(s)
  }

  /** On one lap the wire carries the stream offset itself. */
  lemma OneLap(sent: seq<seq<byte>>, k: nat)
    requires Sized(sent) && Total(sent) < TWO32 && k < |sent|
    ensures WireOf(sent, k).counter == Offset(sent, k) < TWO32
  {
    OffsetGrows(sent, k, |sent|);
  }

  /** The peer takes exactly what is ahead of all it has accepted. */
  lemma TakenIffAhead(s: State)
    requires WireInv(s) && Total(s.sent) < TWO32 && s.data != [] && FreshEnough(s)
    ensures s.data[0].origin < |s.sent|
    ensures IsNew(s.mark, s.data[0].msg.counter) <==> s.accepted == [] || s.data[0].origin > Last(s.accepted)
  {
    var c := s.data[0];
    assert CopyOk(s.sent, c);
    OneLap(s.sent, c.origin);
    if s.accepted != [] {
      var last := Last(s.accepted);
      OneLap(s.sent, last);
      if c.origin > last {
        OffsetGrows(s.sent, last, c.origin);
        AheadOnLapIsNew(Offset(s.sent, last), Offset(s.sent, c.origin));
      } else {
        OffsetGrows(s.sent, c.origin, last);
        BehindIsStale(Offset(s.sent, last), Offset(s.sent, c.origin));
      }
    }
  }

  lemma Extended(accepted: seq<nat>, k: nat)
    requires Increasing(accepted) && (accepted != [] ==> Last(accepted) < k)
    ensures Increasing(accepted + [k]) && Last(accepted + [k]) == k
    ensures forall i :: i in accepted ==> i in accepted + [k]
  {
    forall i | 0 <= i < |accepted|
      ensures accepted[i] < k
    {
      assert accepted[i] <= accepted[|accepted| - 1];
    }
  }

  lemma PeerKeepsRestlessInv(s: State)
    requires RestlessInv(s) && s.data != [] && FreshEnough(s)
    ensures RestlessInv(Apply(s, PeerReceive))
  {
    var t, c := Apply(s, PeerReceive), s.data[0];
    WireInvStep(s, PeerReceive);
    TakenIffAhead(s);
    if IsNew(s.mark, c.msg.counter) {
      Extended(s.accepted, c.origin);
      assert t.accepted == s.accepted + [c.origin];
    }
    var ack := t.acks[|s.acks|];
    assert AckStream(t) == AckStream(s) + [ack];
    forall a | a in AckStream(t)
      ensures t.accepted != [] && a.origin <= Last(t.accepted)
    {
      assert a == ack || a in AckStream(s);
    }
  }

  lemma RestlessAckMatches(s: State)
    requires RestlessInv(s) && Enabled(s, ConsumeAck) && s.ackCh[0].msg == s.phase.want
    ensures s.ackCh[0].origin == |s.sent| - 1 && |s.sent| - 1 in s.accepted
  {
    var a := s.ackCh[0];
    assert AckStream(s)[0] == a;
    assert AckOk(s.sent, a);
    EndsDiffer(s.sent, a.origin);
    assert s.accepted[|s.accepted| - 1] == |s.sent| - 1;
  }

  lemma ConsumeKeepsRestlessInv(s: State)
    requires RestlessInv(s) && Enabled(s, ConsumeAck)
    ensures RestlessInv(Apply(s, ConsumeAck))
  {
    var t := Apply(s, ConsumeAck);
    WireInvStep(s, ConsumeAck);
    assert AckStream(t) == AckStream(s)[1..];
    if s.ackCh[0].msg == s.phase.want {
      RestlessAckMatches(s);
    }
  }

  lemma BeginKeepsRestlessInv(s: State, p: seq<byte>)
    requires RestlessInv(s) && Enabled(s, Begin(p)) && Total(s.sent) + |p| < TWO32
    ensures RestlessInv(Apply(s, Begin(p)))
  {
    WireInvStep(s, Begin(p));
    OffsetOfPrefix(s.sent, p, |s.sent|);
    assert AckStream(Apply(s, Begin(p))) == AckStream(s);
  }

  lemma RestlessInvStep(s: State, step: Step)
    requires RestlessInv(s) && Enabled(s, step) && RestlessStep(s, step)
    ensures RestlessInv(Apply(s, step))
  {
    if step.ConsumeAck? {
      ConsumeKeepsRestlessInv(s);
    } else if step.PeerReceive? {
      PeerKeepsRestlessInv(s);
    } else if step.Begin? {
      BeginKeepsRestlessInv(s, step.payload);
    } else {
      WireInvStep(s, step);
      if OnlyChannels(step) {
        ChannelStep(s, step);
      } else {
        assert AckStream(Apply(s, step)) == AckStream(s);
      }
    }
  }

  lemma {:induction false} RestlessInvReached(run: seq<Step>, t: State)
    requires Reaches(run, t, RestlessStep)
    ensures RestlessInv(t)
  {
    if run != [] {
      var s := ReachesInit(run, t, RestlessStep);
      RestlessInvReached(run[..|run| - 1], s);
      RestlessInvStep(s, run[|run| - 1]);
    }
  }

  /** The theorem for channels that lose, duplicate and reorder and a sender that also gives up and
      goes on: on one lap, and if no copy arrives too late, what the peer handed on is a subsequence
      of what was sent, in order and without duplicates, and contains every send that returned nil. */
  lemma InOrderSubsequence(run: seq<Step>, t: State)
    requires Reaches(run, t, RestlessStep)
    ensures Increasing(t.accepted) && Below(t.accepted, |t.sent|)
    ensures |t.delivered| == |t.accepted|
    ensures forall i :: 0 <= i < |t.accepted| ==> t.delivered[i] == t.sent[t.accepted[i]]
    ensures Increasing(t.acked) && forall k :: k in t.acked ==> k in t.accepted
  {
    RestlessInvReached(run, t);
  }

  // ------------------------------------------------ the staleness bound is tight

  /** The conditions above with the staleness bound relaxed by one byte. */
  predicate AlmostPatientStep(s: State, step: Step) {
    && !step.GiveUp?
    && (step.Begin? ==> Total(s.sent) + |step.payload| < TWO32)
    && (step.PeerReceive? && s.data != [] && s.accepted != [] && s.data[0].origin <= Last(s.accepted) < |s.sent| ==>
          Offset(s.sent, Last(s.accepted)) - Offset(s.sent, s.data[0].origin) <= 65536)
  }

  /** The byte 1 and then zeros, one byte to a send. */
  function OneThenZeros(n: nat): seq<seq<byte>> {
    seq(n, i => if i == 0 then [1] else [0])
  }

  lemma OneByteOffsets(n: nat, k: nat)
    requires k <= n
    ensures Offset(OneThenZeros(n), k) == k
  {
  }

  const STALE: Copy<Datagram> := Copy(Datagram(0, [1]), 0)

  /** `n` sends have been answered, and the network still holds a copy of the first datagram. */
  function Lingering(n: nat): State
    requires 0 < n < TWO32
  {
    State(n, Idle, [], [STALE], [], Incoming(n - 1, true), OneThenZeros(n), OneThenZeros(n), FirstN(n), FirstN(n))
  }

  lemma Extend(run: seq<Step>, s: State, step: Step) returns (longer: seq<Step>)
    requires Reaches(run, s, AlmostPatientStep) && Enabled(s, step) && AlmostPatientStep(s, step)
    ensures Reaches(longer, Apply(s, step), AlmostPatientStep)
  {
    ReachesSnoc(run, s, step, AlmostPatientStep);
    longer := run + [step];
  }

  /** Send `n` while it is on its way, overtaking the old copy, and once the peer has taken it. */
  function Sending(n: nat, data: seq<Copy<Datagram>>): State
    requires 0 < n < TWO32 - 1
  {
    var s := Lingering(n);
    s.(out := n + 1, phase := Waiting(Datagram(n, [0]), n + 1), data := data, sent := OneThenZeros(n + 1))
  }

  function Taken(n: nat): State
    requires 0 < n < TWO32 - 1
  {
    Sending(n, [STALE]).(acks := [Copy(n + 1, n)], mark := Incoming(n, true), delivered := OneThenZeros(n + 1),
                         accepted := FirstN(n + 1))
  }

  lemma OneMoreZero(n: nat)
    requires n > 0
    ensures OneThenZeros(n) + [[0]] == OneThenZeros(n + 1) && FirstN(n) + [n] == FirstN(n + 1)
  {
  }

  lemma BeginZero(n: nat)
    requires 0 < n < TWO32 - 1
    ensures AlmostPatientStep(Lingering(n), Begin([0]))
    ensures Apply(Lingering(n), Begin([0])) == Sending(n, [STALE])
  {
    OneMoreZero(n);
    OneByteOffsets(n, n);
  }

  lemma ZeroOvertakes(n: nat)
    requires 0 < n < TWO32 - 1
    ensures var c := Copy(Datagram(n, [0]), n);
            && Apply(Sending(n, [STALE]), Transmit) == Sending(n, [STALE, c])
            && Apply(Sending(n, [STALE, c]), SwapData(0)) == Sending(n, [c, STALE])
  {
  }

  lemma ZeroTaken(n: nat)
    requires 0 < n < TWO32 - 1
    ensures var s := Sending(n, [Copy(Datagram(n, [0]), n), STALE]);
            AlmostPatientStep(s, PeerReceive) && Apply(s, PeerReceive) == Taken(n)
  {
    OneMoreZero(n);
    AheadOnLapIsNew(n - 1, n);
  }

  lemma ZeroAnswered(n: nat)
    requires 0 < n < TWO32 - 1
    ensures var r := Apply(Taken(n), ReceiveAck);
            Enabled(r, ConsumeAck) && Apply(r, ConsumeAck) == Lingering(n + 1)
  {
    OneMoreZero(n);
  }

  lemma SendZero(run: seq<Step>, n: nat) returns (longer: seq<Step>)
    requires 0 < n < TWO32 - 1 && Reaches(run, Lingering(n), AlmostPatientStep)
    ensures Reaches(longer, Lingering(n + 1), AlmostPatientStep)
  {
    BeginZero(n);
    ZeroOvertakes(n);
    ZeroTaken(n);
    ZeroAnswered(n);
    var c := Copy(Datagram(n, [0]), n);
    longer := Extend(run, Lingering(n), Begin([0]));
    longer := Extend(longer, Sending(n, [STALE]), Transmit);
    longer := Extend(longer, Sending(n, [STALE, c]), SwapData(0));
    longer := Extend(longer, Sending(n, [c, STALE]), PeerReceive);
    longer := Extend(longer, Taken(n), ReceiveAck);
    longer := Extend(longer, Apply(Taken(n), ReceiveAck), ConsumeAck);
  }

  /** The first send on its way, and once the peer has taken it. */
  function FirstSending(data: seq<Copy<Datagram>>): State {
    INIT.(out := 1, phase := Waiting(Datagram(0, [1]), 1), data := data, sent := [[1]])
  }

  function FirstTaken(acks: seq<Copy<uint32>>, ackCh: seq<Copy<uint32>>): State {
    FirstSending([STALE]).(acks := acks, ackCh := ackCh, mark := Incoming(0, true), delivered := [[1]], accepted := [0])
  }

  lemma FirstSteps()
    ensures Apply(INIT, Begin([1])) == FirstSending([])
    ensures Apply(FirstSending([]), Transmit) == FirstSending([STALE])
    ensures Apply(FirstSending([STALE]), DuplicateData(0)) == FirstSending([STALE, STALE])
  {
  }

  lemma FirstAnswered()
    ensures var ack := Copy(1, 0);
            && Apply(FirstSending([STALE, STALE]), PeerReceive) == FirstTaken([ack], [])
            && Apply(FirstTaken([ack], []), ReceiveAck) == FirstTaken([], [ack])
            && Apply(FirstTaken([], [ack]), ConsumeAck) == Lingering(1)
  {
    assert FirstN(1) == [0] && OneThenZeros(1) == [[1]];
  }

  lemma FirstLingers() returns (run: seq<Step>)
    ensures Reaches(run, Lingering(1), AlmostPatientStep)
  {
    FirstSteps();
    FirstAnswered();
    run := Extend([], INIT, Begin([1]));
    run := Extend(run, FirstSending([]), Transmit);
    run := Extend(run, FirstSending([STALE]), DuplicateData(0));
    run := Extend(run, FirstSending([STALE, STALE]), PeerReceive);
    run := Extend(run, FirstTaken([Copy(1, 0)], []), ReceiveAck);
    run := Extend(run, FirstTaken([], [Copy(1, 0)]), ConsumeAck);
  }

  lemma {:induction false} ManyZeros(n: nat) returns (run: seq<Step>)
    requires 0 < n < TWO32
    ensures Reaches(run, Lingering(n), AlmostPatientStep)
  {
    if n == 1 {
      run := FirstLingers();
    } else {
      run := ManyZeros(n - 1);
      run := SendZero(run, n - 1);
    }
  }

  /** The staleness bound cannot be relaxed by a byte. Nothing is given up, everything is
      acknowledged, and still the peer hands the first payload on a second time: its copy arrives
      when the mark stands 65536 bytes further on. */
  lemma StalenessIsTight() returns (run: seq<Step>, t: State)
    ensures Reaches(run, t, AlmostPatientStep)
    ensures t.sent == OneThenZeros(65537) && t.acked == FirstN(65537)
    ensures t.delivered == t.sent + [t.sent[0]] && t.accepted == FirstN(65537) + [0]
  {
    run := ManyZeros(65537);
    var s := Lingering(65537);
    OneByteOffsets(65537, 65536);
    OneByteOffsets(65537, 0);
    BehindIsStale(65536, 0);
    run := Extend(run, s, PeerReceive);
    t := Apply(s, PeerReceive);
  }
}
