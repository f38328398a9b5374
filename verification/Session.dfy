/** The session object: the sending half of src/internal/mactelnet/session.go and the data handling
    of src/internal/mactelnet/loop.go. Between any two of its steps the network, the peer and the
    receive loop may take steps of their own; every call is a run of the system in StopAndWait. */
module Session {
  import opened Uint32
  import opened Sequencing
  import opened StopAndWait
  import opened ByteStream
  import Auth
  import Protocol
  import opened Wrappers
  import opened Limits

  datatype SendResult = Acked | Exhausted | SendFailed | Cancelled
  datatype WriteResult = Written(n: nat) | Closed | TooLarge | Failed(reason: SendResult)
  datatype WaitResult = Got | Timeout | Done

  /** Steps of everything but the sending goroutine. */
  predicate Foreign(step: Step) {
    !step.Drain? && !step.Begin? && !step.Transmit? && !step.ConsumeAck? && !step.GiveUp?
  }

  /** `after` is `before` and then `n` copies of `x`. */
  ghost predicate CopiesOf<T>(before: seq<T>, after: seq<T>, x: T, n: nat) {
    && |after| == |before| + n
    && (forall i :: 0 <= i < |before| ==> after[i] == before[i])
    && (forall i :: |before| <= i < |after| ==> after[i] == x)
  }

  lemma OneCopyMore<T>(before: seq<T>, after: seq<T>, x: T, n: nat)
    requires CopiesOf(before, after, x, n)
    ensures CopiesOf(before, after + [x], x, n + 1)
  {
  }

  lemma OneCopyFirst<T>(before: seq<T>, after: seq<T>, x: T, n: nat)
    requires CopiesOf(before + [x], after, x, n)
    ensures CopiesOf(before, after, x, n + 1)
  {
    assert forall i :: 0 <= i < |before| ==> after[i] == (before + [x])[i];
    assert after[|before|] == (before + [x])[|before|];
  }

  /** The first `n` waits of a schedule, added up. */
  function SumOfFirst(s: seq<nat>, n: nat): nat
    requires n <= |s|
  {
    if n == 0 then 0 else SumOfFirst(s, n - 1) + s[n - 1]
  }

  lemma SumOfAll(s: seq<nat>, n: nat)
    requires n <= |s|
    ensures SumOfFirst(s, n) == Sum(s[..n])
    ensures n == |s| ==> SumOfFirst(s, n) == Sum(s)
  {
    if n > 0 {
      SumOfAll(s, n - 1);
      SumSnoc(s[..n - 1], s[n - 1]);
      assert s[..n] == s[..n - 1] + [s[n - 1]];
    }
    if n == |s| {
      assert s[..n] == s;
    }
  }

  /** What the wire and the clock show after `n` turns of the retransmit loop. */
  ghost predicate Attempted(before: seq<Datagram>, after: seq<Datagram>, pkt: Datagram, schedule: seq<nat>, n: nat,
                            start: int, now: int)
  {
    n <= |schedule| && CopiesOf(before, after, pkt, n) && now == start + SumOfFirst(schedule, n)
  }

  lemma AttemptedMore(before: seq<Datagram>, after: seq<Datagram>, pkt: Datagram, schedule: seq<nat>, n: nat,
                      start: int, now: int)
    requires Attempted(before, after, pkt, schedule, n, start, now) && n < |schedule|
    ensures Attempted(before, after + [pkt], pkt, schedule, n + 1, start, now + schedule[n])
  {
    OneCopyMore(before, after, pkt, n);
  }

  /** What a send shows to have happened: `copies` of one datagram went out, none only if the socket
      refused the first. An exhausted send has transmitted one copy more than the schedule has waits,
      after waiting for their sum. */
  ghost predicate Transmitted(before: seq<Datagram>, after: seq<Datagram>, pkt: Datagram, schedule: seq<nat>,
                              r: SendResult, copies: nat, start: int, now: int)
  {
    && CopiesOf(before, after, pkt, copies)
    && copies <= |schedule| + 1 && (copies == 0 ==> r.SendFailed?)
    && (r.Exhausted? ==> copies == |schedule| + 1 && now == start + Sum(schedule))
  }

  /** The same for the retransmissions alone. */
  ghost predicate Retransmitted(before: seq<Datagram>, after: seq<Datagram>, pkt: Datagram, schedule: seq<nat>,
                                r: SendResult, again: nat, start: int, now: int)
  {
    && CopiesOf(before, after, pkt, again) && again <= |schedule|
    && (r.Exhausted? ==> again == |schedule| && now == start + Sum(schedule))
  }

  lemma RetransmittedAll(before: seq<Datagram>, after: seq<Datagram>, pkt: Datagram, schedule: seq<nat>,
                         start: int, now: int)
    requires Attempted(before, after, pkt, schedule, |schedule|, start, now)
    ensures Retransmitted(before, after, pkt, schedule, Exhausted, |schedule|, start, now)
  {
    SumOfAll(schedule, |schedule|);
  }

  lemma RetransmittedSome(before: seq<Datagram>, after: seq<Datagram>, pkt: Datagram, schedule: seq<nat>,
                          r: SendResult, n: nat, start: int, last: int, now: int)
    requires Attempted(before, after, pkt, schedule, n, start, last) && !r.Exhausted?
    ensures Retransmitted(before, after, pkt, schedule, r, n, start, now)
  {
  }

  lemma Refused(wire: seq<Datagram>, pkt: Datagram, schedule: seq<nat>, start: int, now: int)
    ensures Transmitted(wire, wire, pkt, schedule, SendFailed, 0, start, now)
  {
  }

  lemma FirstAndRetransmitted(before: seq<Datagram>, after: seq<Datagram>, pkt: Datagram, schedule: seq<nat>,
                              r: SendResult, again: nat, start: int, now: int)
    requires Retransmitted(before + [pkt], after, pkt, schedule, r, again, start, now)
    ensures Transmitted(before, after, pkt, schedule, r, again + 1, start, now)
  {
    OneCopyFirst(before, after, pkt, again);
  }

  function Messages<M>(copies: seq<Copy<M>>): seq<M> {
    seq(|copies|, i requires 0 <= i < |copies| => copies[i].msg)
  }

  /** A send is under way. */
  predicate Sending(s: State) {
    s.phase.Waiting? && s.sent != []
  }

  /** The parts of the system only the sender changes. */
  predicate SenderPart(s: State, t: State) {
    s.out == t.out && s.phase == t.phase && s.sent == t.sent && s.acked == t.acked
  }

  /** The acknowledged sends once send `k` has returned. */
  function AckedBy(r: SendResult, acked: seq<nat>, k: nat): seq<nat> {
    if r.Acked? then acked + [k] else acked
  }

  /** The send that was under way has returned, and that is all the sender has done. */
  predicate Returned(before: State, after: State, r: SendResult)
    requires before.sent != []
  {
    && after.phase.Idle? && after.out == before.out && after.sent == before.sent
    && after.acked == AckedBy(r, before.acked, |before.sent| - 1)
  }

  lemma ReturnedLater(before: State, between: State, after: State, r: SendResult)
    requires Sending(before) && SenderPart(between, before) && Returned(between, after, r)
    ensures Returned(before, after, r)
  {
  }

  /** After the first `n` steps of the run the sender was between two sends with no ACK at hand. */
  ghost predicate EmptyAt(run: seq<Step>, n: nat) {
    n <= |run| && Exec(INIT, run[..n]).Some?
    && Exec(INIT, run[..n]).value.phase.Idle? && Exec(INIT, run[..n]).value.ackCh == []
  }

  /** This was so at some time since `before`. */
  ghost predicate Drained(before: seq<Step>, run: seq<Step>) {
    exists n :: |before| <= n <= |run| && EmptyAt(run, n)
  }

  lemma DrainedLater(before: seq<Step>, run: seq<Step>, longer: seq<Step>)
    requires Drained(before, run) && run <= longer
    ensures Drained(before, longer)
  {
    var n :| |before| <= n <= |run| && EmptyAt(run, n);
    assert longer[..n] == run[..n];
    assert EmptyAt(longer, n);
  }

  /** The peer has taken send `k`, if the run kept to the conditions of the theorem on channels that
      keep their order. */
  ghost predicate TakenOverFifo(run: seq<Step>, t: State, k: nat) {
    Reaches(run, t, FifoStep) ==> k in t.accepted
  }

  lemma AckedIsAccepted(run: seq<Step>, t: State, acked: seq<nat>, k: nat)
    requires t.acked == acked + [k]
    ensures TakenOverFifo(run, t, k)
  {
    if Reaches(run, t, FifoStep) {
      InOrderExactlyOnce(run, t);
      assert t.acked[|acked|] == k;
    }
  }

  class Session {
    const counters: Counters
    const authSchedule: seq<nat>
    const dataSchedule: seq<nat>
    var ackCh: seq<uint32>
    var terminalMode: bool
    var closed: bool
    // Whether the session's context has ended.
    var cancelled: bool

    // What was given to the raw socket, and the time spent waiting for ACKs.
    var wire: seq<Datagram>
    var acksSent: seq<uint32>
    var waited: int

    // The read ends: terminal output and control records.
    var pipe: seq<byte>
    var controlCh: seq<Protocol.Record>

    // The system this session is the sender of, the run that led to its present state, and what
    // the sends of the run carried.
    var sys: State
    ghost var run: seq<Step>
    ghost var messages: seq<Message>

    ghost predicate Valid()
      reads this, counters
    {
      && Exec(INIT, run) == Some(sys)
      && counters.out == sys.out
      && ackCh == Messages(sys.ackCh)
      && Carried(sys, messages)
    }

    /** The schedule in force: the longer one until terminal mode is on. */
    function Schedule(): seq<nat>
      reads this`terminalMode
    {
      if terminalMode then dataSchedule else authSchedule
    }

    constructor (authSchedule: seq<nat>, dataSchedule: seq<nat>)
      ensures Valid() && fresh(counters)
      ensures this.authSchedule == authSchedule && this.dataSchedule == dataSchedule
      ensures sys == INIT && run == [] && messages == []
      ensures !terminalMode && !closed && !cancelled
      ensures wire == [] && acksSent == [] && waited == 0 && pipe == [] && controlCh == []
    {
      this.authSchedule, this.dataSchedule := authSchedule, dataSchedule;
      counters := new Counters();
      closed, cancelled := false, false;
      ackCh, terminalMode, wire, acksSent, waited, pipe, controlCh := [], false, [], [], 0, [], [];
      sys, run, messages := INIT, [], [];
    }

    /** Any finite number of steps of the others, one of which may end the context. */
    method Interfere()
      requires Valid()
      modifies this`ackCh, this`sys, this`run, this`cancelled
      ensures Valid() && old(run) <= run
      ensures forall i :: |old(run)| <= i < |run| ==> Foreign(run[i])
      ensures SenderPart(sys, old(sys)) && (old(cancelled) ==> cancelled)
    {
      var ended: bool := *;
      if ended {
        cancelled := true;
      }
      var n: nat := *;
      while n > 0
        invariant Valid() && old(run) <= run
        invariant forall i :: |old(run)| <= i < |run| ==> Foreign(run[i])
        invariant SenderPart(sys, old(sys)) && (old(cancelled) ==> cancelled)
      {
        var step: Step := *;
        if Foreign(step) && Enabled(sys, step) {
          ExecSnoc(INIT, run, step);
          sys, run := Apply(sys, step), run + [step];
          ackCh := Messages(sys.ackCh);
        }
        n := n - 1;
      }
    }

    /** Hands one datagram to the raw socket, which may refuse it. */
    method Send(pkt: Datagram) returns (ok: bool)
      requires Valid() && Sending(sys) && pkt == sys.phase.pkt
      modifies this`wire, this`ackCh, this`sys, this`run, this`cancelled
      ensures Valid() && old(run) <= run && SenderPart(sys, old(sys))
      ensures wire == if ok then old(wire) + [pkt] else old(wire)
    {
      Interfere();
      ok := *;
      if ok {
        ExecSnoc(INIT, run, Transmit);
        sys, run := Apply(sys, Transmit), run + [Transmit];
        wire := wire + [pkt];
        Interfere();
      }
    }

    /** Waits until the ACK that answers the send arrives, discarding any other, until `d` has
        passed, or until the context ends. An ACK arrives at some time before the timer fires; every
        turn of the loop takes some time. */
    method WaitForAck(want: uint32, d: nat) returns (r: WaitResult)
      requires Valid() && Sending(sys) && want == sys.phase.want
      modifies this`ackCh, this`waited, this`sys, this`run, this`cancelled
      ensures Valid() && old(run) <= run
      ensures r.Got? ==> Returned(old(sys), sys, Acked)
      ensures !r.Got? ==> SenderPart(sys, old(sys))
      ensures r.Done? ==> cancelled
      ensures old(waited) <= waited <= old(waited) + d && (r.Timeout? ==> waited == old(waited) + d)
    {
      var remaining := d;
      while remaining > 0
        invariant Valid() && old(run) <= run && SenderPart(sys, old(sys))
        invariant 0 <= remaining <= d && waited == old(waited) + d - remaining
        decreases remaining
      {
        var outcome, left := Select(want, remaining);
        if outcome.Some? {
          return outcome.value;
        }
        remaining := left;
      }
      return Timeout;
    }

    /** One turn of the wait: whichever of the ACK channel, the timer and the context is ready first;
        none of them ends the wait if it is an ACK of another send. */
    method Select(want: uint32, remaining: nat) returns (outcome: Option<WaitResult>, left: nat)
      requires Valid() && Sending(sys) && want == sys.phase.want && remaining > 0
      modifies this`ackCh, this`waited, this`sys, this`run, this`cancelled
      ensures Valid() && old(run) <= run
      ensures outcome == Some(Got) ==> Returned(old(sys), sys, Acked)
      ensures outcome != Some(Got) ==> SenderPart(sys, old(sys))
      ensures outcome == Some(Done) ==> cancelled
      ensures left <= remaining && waited == old(waited) + remaining - left
      ensures outcome == Some(Timeout) ==> left == 0
      ensures outcome.None? ==> left < remaining
    {
      Interfere();
      var elapsed := SomeOf(remaining);
      var ended: bool, arrived: bool := *, *;
      if cancelled && ended {
        outcome := Some(Done);
      } else if |ackCh| > 0 && arrived {
        var got := TakeAck();
        outcome := if got == want then Some(Got) else None;
      } else {
        elapsed := remaining;
        outcome := Some(Timeout);
      }
      waited := waited + elapsed;
      left := remaining - elapsed;
    }

    /** Some part of the time that is left. */
    method SomeOf(remaining: nat) returns (elapsed: nat)
      requires remaining > 0
      ensures 0 < elapsed <= remaining
    {
      var some: nat := *;
      return if 0 < some <= remaining then some else remaining;
    }

    /** Takes one ACK off the channel; the right one ends the send. */
    method TakeAck() returns (got: uint32)
      requires Valid() && Sending(sys) && |ackCh| > 0
      modifies this`ackCh, this`sys, this`run
      ensures Valid() && old(run) <= run
      ensures got == old(sys.phase.want) ==> Returned(old(sys), sys, Acked)
      ensures got != old(sys.phase.want) ==> SenderPart(sys, old(sys))
    {
      got := ackCh[0];
      ExecSnoc(INIT, run, ConsumeAck);
      sys, run := Apply(sys, ConsumeAck), run + [ConsumeAck];
      ackCh := ackCh[1..];
    }

    /** Gives the current send up. */
    method Abandon(r: SendResult)
      requires Valid() && Sending(sys) && !r.Acked?
      modifies this`sys, this`run
      ensures Valid() && old(run) <= run
      ensures Returned(old(sys), sys, r)
    {
      ExecSnoc(INIT, run, GiveUp);
      sys, run := Apply(sys, GiveUp), run + [GiveUp];
    }

    /** Takes the stale ACKs off the channel until it is empty; more may come in while it does, and
        after. */
    method DrainAcks()
      requires Valid() && sys.phase.Idle?
      modifies this`ackCh, this`sys, this`run, this`cancelled
      ensures Valid() && old(run) <= run && SenderPart(sys, old(sys))
      ensures Drained(old(run), run)
    {
      Interfere();
      var arrivals: nat := *;
      while |ackCh| > 0
        invariant Valid() && old(run) <= run && SenderPart(sys, old(sys))
        decreases arrivals, |ackCh|
      {
        ExecSnoc(INIT, run, Drain);
        sys, run := Apply(sys, Drain), run + [Drain];
        ackCh := ackCh[1..];
        if arrivals > 0 {
          arrivals := arrivals - 1;
          Interfere();
        }
      }
      assert |sys.ackCh| == 0;
      assert run[..|run|] == run;
      ghost var empty := run;
      assert EmptyAt(run, |run|);
      Interfere();
      assert run[..|empty|] == empty;
      assert EmptyAt(run, |empty|);
    }

    /** Reserves the counter bytes and builds the datagram. */
    method Reserve(payload: seq<byte>, ghost m: Message) returns (pkt: Datagram, want: uint32)
      requires Valid() && sys.phase.Idle? && 1 <= |payload| <= MAX_PAYLOAD && payload == Payload(m)
      modifies counters`out, this`sys, this`run, this`messages
      ensures Valid() && old(run) <= run && Sending(sys)
      ensures pkt == sys.phase.pkt == Datagram(old(counters.out), payload) && want == sys.phase.want
      ensures counters.out == want == AckCounterFor(old(counters.out), |payload|)
      ensures sys.sent == old(sys.sent) + [payload] && sys.acked == old(sys.acked)
      ensures messages == old(messages) + [m]
    {
      var plen := ToUint32(|payload|);
      var counter := counters.ReserveOut(plen);
      want := AckCounterFor(counter, plen);
      pkt := Datagram(counter, payload);
      ExecSnoc(INIT, run, Begin(payload));
      sys, run := Apply(sys, Begin(payload)), run + [Begin(payload)];
      messages := messages + [m];
    }

    /** One turn of the retransmit loop: a wait and, when it runs out, the datagram again. None if the
        loop goes on. */
    method Attempt(pkt: Datagram, want: uint32, d: nat) returns (r: Option<SendResult>)
      requires Valid() && Sending(sys) && pkt == sys.phase.pkt && want == sys.phase.want
      modifies this`ackCh, this`wire, this`waited, this`sys, this`run, this`cancelled
      ensures Valid() && old(run) <= run
      ensures r.Some? ==> r.value != Exhausted && Returned(old(sys), sys, r.value) && wire == old(wire)
      ensures r.None? ==> SenderPart(sys, old(sys)) && wire == old(wire) + [pkt] && waited == old(waited) + d
      ensures old(waited) <= waited <= old(waited) + d
    {
      var w := WaitForAck(want, d);
      if w.Got? {
        return Some(Acked);
      }
      var again := false;
      if w.Timeout? {
        again := Send(pkt);
      }
      if again {
        return None;
      }
      ghost var state := sys;
      var failure := if w.Done? then Cancelled else SendFailed;
      Abandon(failure);
      ReturnedLater(old(sys), state, sys, failure);
      return Some(failure);
    }

    /** The retransmit loop: the datagram again after each wait of the schedule, until its ACK
        arrives. */
    method Retransmit(pkt: Datagram, want: uint32, schedule: seq<nat>) returns (r: SendResult, ghost again: nat)
      requires Valid() && Sending(sys) && pkt == sys.phase.pkt && want == sys.phase.want
      modifies this`ackCh, this`wire, this`waited, this`sys, this`run, this`cancelled
      ensures Valid() && old(run) <= run && Returned(old(sys), sys, r)
      ensures Retransmitted(old(wire), wire, pkt, schedule, r, again, old(waited), waited)
    {
      again := 0;
      var attempt := 0;
      while attempt < |schedule|
        invariant again == attempt
        invariant Valid() && old(run) <= run && Sending(sys) && SenderPart(sys, old(sys))
        invariant Attempted(old(wire), wire, pkt, schedule, attempt, old(waited), waited)
      {
        ghost var state, time := sys, waited;
        AttemptedMore(old(wire), wire, pkt, schedule, attempt, old(waited), waited);
        var outcome := Attempt(pkt, want, schedule[attempt]);
        if outcome.Some? {
          r := outcome.value;
          ReturnedLater(old(sys), state, sys, r);
          RetransmittedSome(old(wire), wire, pkt, schedule, r, again, old(waited), time, waited);
          return;
        }
        again := again + 1;
        attempt := attempt + 1;
      }
      ghost var state := sys;
      Abandon(Exhausted);
      ReturnedLater(old(sys), state, sys, Exhausted);
      RetransmittedAll(old(wire), wire, pkt, schedule, old(waited), waited);
      return Exhausted, again;
    }

    /** Transmits the datagram, and retransmits it until its ACK arrives. */
    method TransmitUntilAcked(pkt: Datagram, want: uint32) returns (r: SendResult, ghost copies: nat)
      requires Valid() && Sending(sys) && pkt == sys.phase.pkt && want == sys.phase.want
      modifies this`ackCh, this`wire, this`waited, this`sys, this`run, this`cancelled
      ensures Valid() && old(run) <= run && Returned(old(sys), sys, r)
      ensures Transmitted(old(wire), wire, pkt, Schedule(), r, copies, old(waited), waited)
    {
      var ok := Send(pkt);
      ghost var state := sys;
      if !ok {
        Abandon(SendFailed);
        ReturnedLater(old(sys), state, sys, SendFailed);
        Refused(wire, pkt, Schedule(), old(waited), waited);
        return SendFailed, 0;
      }
      var schedule := dataSchedule;
      if !terminalMode {
        schedule := authSchedule;
      }
      r, copies := Retransmit(pkt, want, schedule);
      ReturnedLater(old(sys), state, sys, r);
      FirstAndRetransmitted(old(wire), wire, pkt, schedule, r, copies, old(waited), waited);
      copies := copies + 1;
    }

    /** Everything before the first transmission. */
    method Prepare(payload: seq<byte>, ghost m: Message) returns (pkt: Datagram, want: uint32)
      requires Valid() && sys.phase.Idle? && 1 <= |payload| <= MAX_PAYLOAD && payload == Payload(m)
      modifies this`ackCh, this`sys, this`run, this`messages, this`cancelled, counters`out
      ensures Valid() && old(run) <= run && Sending(sys) && Drained(old(run), run)
      ensures pkt == sys.phase.pkt == Datagram(old(counters.out), payload) && want == sys.phase.want
      ensures sys.out == AckCounterFor(old(counters.out), |payload|)
      ensures sys.sent == old(sys.sent) + [payload] && sys.acked == old(sys.acked)
      ensures messages == old(messages) + [m]
    {
      DrainAcks();
      ghost var drained := run;
      pkt, want := Reserve(payload, m);
      DrainedLater(old(run), drained, run);
    }

    /** Sends one payload and waits for its ACK, sending again after each wait of the schedule.
        Whatever the outcome the counter stays advanced, the session can send again, and only
        copies of one datagram were transmitted; an exhausted send has transmitted one copy more
        than the schedule has waits, after waiting for their sum. A send that returned nil was
        taken by the peer, provided the run so far kept to the conditions of the theorem on
        channels that keep their order. */
    method SendDataAndWaitAck(payload: seq<byte>, ghost m: Message) returns (r: SendResult, ghost copies: nat)
      requires Valid() && sys.phase.Idle? && 1 <= |payload| <= MAX_PAYLOAD && payload == Payload(m)
      modifies this`ackCh, this`wire, this`waited, this`sys, this`run, this`messages, this`cancelled, counters`out
      ensures Valid() && sys.phase.Idle? && old(run) <= run
      ensures counters.out == AckCounterFor(old(counters.out), |payload|)
      ensures sys.sent == old(sys.sent) + [payload] && messages == old(messages) + [m]
      ensures sys.acked == AckedBy(r, old(sys.acked), |old(sys.sent)|)
      ensures var pkt := Datagram(old(counters.out), payload);
              var schedule := if terminalMode then dataSchedule else authSchedule;
              Transmitted(old(wire), wire, pkt, schedule, r, copies, old(waited), waited)
      ensures r.Acked? ==> TakenOverFifo(run, sys, |old(sys.sent)|)
      ensures Drained(old(run), run)
    {
      var pkt, want := Prepare(payload, m);
      ghost var prepared := run;
      r, copies := TransmitUntilAcked(pkt, want);
      DrainedLater(old(run), prepared, run);
      if r.Acked? {
        AckedIsAccepted(run, sys, old(sys.acked), |old(sys.sent)|);
      }
    }

    /** Sends terminal input. An empty write sends nothing and one that does not fit a datagram is
        refused; any other is sent as it is, without framing. */
    method Write(p: seq<byte>) returns (r: WriteResult)
      requires Valid() && sys.phase.Idle?
      modifies this`ackCh, this`wire, this`waited, this`sys, this`run, this`messages, this`cancelled, counters`out
      ensures Valid() && sys.phase.Idle? && old(run) <= run
      ensures r == Closed <==> closed
      ensures r == TooLarge <==> !closed && |p| > 1469
      ensures r.Written? ==> r.n == |p|
      ensures |p| == 0 || r == Closed || r == TooLarge ==> sys == old(sys) && messages == old(messages)
      ensures p != [] && (r.Written? || r.Failed?) ==>
        && messages == old(messages) + [Input(p)]
        && sys.acked == if r.Written? then old(sys.acked) + [|old(messages)|] else old(sys.acked)
    {
      if closed {
        return Closed;
      }
      if |p| == 0 {
        return Written(0);
      }
      if |p| + Protocol.CP_HEADER_LEN > MAX_PAYLOAD {
        return TooLarge;
      }
      var payloadBuf := new byte[Protocol.CP_HEADER_LEN + |p|];
      var n, _ := Protocol.EncodeControl(payloadBuf, 0, Protocol.PLAIN_DATA, p);
      assert payloadBuf[..n] == p;
      var sent, copies := SendDataAndWaitAck(payloadBuf[..n], Input(p));
      return if sent.Acked? then Written(|p|) else Failed(sent);
    }

    /** The payload of a size packet, written record by record. */
    method BuildSize(cols: uint16, rows: uint16) returns (payload: seq<byte>)
      ensures payload == Payload(Control(SizeRecords(cols, rows)))
      ensures SizeMeans(Protocol.Records(payload), cols, rows)
    {
      var payloadBuf := new byte[2 * (Protocol.CP_HEADER_LEN + 2)];
      SizeBytes(cols, rows);
      ghost var rs := SizeRecords(cols, rows);
      var n, _ := Protocol.EncodeControl(payloadBuf, 0, Protocol.TERM_WIDTH, Auth.Le16(cols));
      assert payloadBuf[..n] == Protocol.RecordBytes(rs[0]);
      ghost var first := payloadBuf[..n];
      var m, _ := Protocol.EncodeControl(payloadBuf, n, Protocol.TERM_HEIGHT, Auth.Le16(rows));
      Auth.Front(first, Protocol.RecordBytes(rs[1]), []);
      payload := payloadBuf[..n + m];
      assert SizeMeans(Protocol.Records(payload), cols, rows) by {
        assert payload == Payload(Control(SizeRecords(cols, rows)));
        SizeIsRead(cols, rows);
      }
    }

    /** Sends a new terminal size as two control records. */
    method Resize(cols: uint16, rows: uint16) returns (r: WriteResult)
      requires Valid() && sys.phase.Idle?
      modifies this`ackCh, this`wire, this`waited, this`sys, this`run, this`messages, this`cancelled, counters`out
      ensures Valid() && sys.phase.Idle? && old(run) <= run
      ensures r == Closed <==> closed
      ensures r == Closed ==> sys == old(sys) && messages == old(messages)
      ensures r != Closed ==>
        && (r.Written? || r.Failed?)
        && messages == old(messages) + [Control(SizeRecords(cols, rows))]
        && SizeMeans(Protocol.Records(Payload(Control(SizeRecords(cols, rows)))), cols, rows)
        && sys.acked == if r.Written? then old(sys.acked) + [|old(messages)|] else old(sys.acked)
    {
      if closed {
        return Closed;
      }
      var payload := BuildSize(cols, rows);
      SizeBytes(cols, rows);
      SizeIsRead(cols, rows);
      var sent, copies := SendDataAndWaitAck(payload, Control(SizeRecords(cols, rows)));
      return if sent.Acked? then Written(0) else Failed(sent);
    }

    /** The byte stream of a session, from its login on: whatever it has written and however its
        sends went, what the peer has put into its pipe is the input of a first part of its
        messages, every acknowledged one included. */
    lemma StreamArrives() returns (n: nat)
      requires Valid() && sys.phase.Idle?
      requires Reaches(run, sys, FifoStep) && AllIntact(messages) && NoInputLost(sys, messages)
      ensures n <= |messages| && Pipe(sys.delivered) == InputOf(messages, n)
      ensures forall k :: k in sys.acked ==> k < n
    {
      n := EndToEnd(run, sys, messages);
    }

    /** One inbound DATA packet: it is always ACKed; if it is new, its records are handled in order,
        control records going to the handshake, plain bytes to the pipe in terminal mode and nowhere
        before. The handshake may turn terminal mode on between two records: the first `muted` are
        handled before it is on. Only the end of the context cuts this short, at a control record. */
    method ProcessInboundData(counter: uint32, payload: seq<byte>) returns (ghost handled: nat, ghost muted: nat)
      modifies counters`high, counters`inSeen, this`acksSent, this`pipe, this`controlCh, this`cancelled,
               this`terminalMode
      ensures counters.Mark() == AfterIncoming(old(counters.Mark()), counter)
      ensures acksSent == old(acksSent) + [AckCounterFor(counter, ToUint32(|payload|))]
      ensures !IsNew(old(counters.Mark()), counter) ==>
        pipe == old(pipe) && controlCh == old(controlCh) && terminalMode == old(terminalMode)
      ensures IsNew(old(counters.Mark()), counter) ==>
        var rs := Protocol.Records(payload);
        && HandledSome(rs, handled, muted, old(terminalMode), terminalMode, cancelled)
        && pipe == old(pipe) + PlainBetween(rs, muted, handled)
        && controlCh == old(controlCh) + ControlsOfFirst(rs, handled)
    {
      acksSent := acksSent + [AckCounterFor(counter, ToUint32(|payload|))];
      var isNew := counters.AcceptIncoming(counter);
      if !isNew {
        return 0, 0;
      }
      var records := Protocol.IterateControl(payload);
      handled, muted := Dispatch(records);
    }

    /** Hands the records on one by one. */
    method Dispatch(records: seq<Protocol.Record>) returns (ghost handled: nat, ghost muted: nat)
      modifies this`pipe, this`controlCh, this`cancelled, this`terminalMode
      ensures HandledSome(records, handled, muted, old(terminalMode), terminalMode, cancelled)
      ensures pipe == old(pipe) + PlainBetween(records, muted, handled)
      ensures controlCh == old(controlCh) + ControlsOfFirst(records, handled)
    {
      muted := 0;
      var i := 0;
      while i < |records|
        invariant 0 <= muted <= i <= |records| && (old(terminalMode) ==> terminalMode && muted == 0)
        invariant !terminalMode ==> muted == i
        invariant pipe == old(pipe) + PlainBetween(records, muted, i)
        invariant controlCh == old(controlCh) + ControlsOfFirst(records, i)
      {
        PlainOneMore(old(pipe), pipe, records, muted, i);
        ControlsOneMore(old(controlCh), controlCh, records, i);
        var ok := HandOn(records[i]);
        if !ok {
          return i, muted;
        }
        i := i + 1;
        if !terminalMode {
          muted := i;
        }
      }
      return i, muted;
    }

    /** The callback's work on one record, before which the handshake may turn terminal mode on.
        Handing a control record on may block until the context ends. */
    method HandOn(rec: Protocol.Record) returns (ok: bool)
      modifies this`pipe, this`controlCh, this`cancelled, this`terminalMode
      ensures old(terminalMode) ==> terminalMode
      ensures pipe == old(pipe) + if ok && terminalMode then PlainOfOne(rec) else []
      ensures ok ==> controlCh == if rec.ct == Protocol.PLAIN_DATA then old(controlCh) else old(controlCh) + [rec]
      ensures !ok ==> cancelled && rec.ct != Protocol.PLAIN_DATA && controlCh == old(controlCh)
    {
      var on: bool, ended: bool := *, *;
      if on {
        terminalMode := true;
      }
      if rec.ct != Protocol.PLAIN_DATA && ended {
        cancelled := true;
        return false;
      }
      if rec.ct == Protocol.PLAIN_DATA {
        if terminalMode {
          pipe := pipe + rec.body;
        }
      } else {
        controlCh := controlCh + [rec];
      }
      return true;
    }
  }

  /** The terminal bytes in the records from the `from`-th up to the `to`-th. */
  function PlainBetween(rs: seq<Protocol.Record>, from: nat, to: nat): seq<byte>
    requires from <= to <= |rs|
  {
    if from == to then [] else PlainBetween(rs, from, to - 1) + PlainOfOne(rs[to - 1])
  }

  lemma PlainOneMore(before: seq<byte>, pipe: seq<byte>, rs: seq<Protocol.Record>, from: nat, i: nat)
    requires from <= i < |rs| && pipe == before + PlainBetween(rs, from, i)
    ensures pipe + PlainOfOne(rs[i]) == before + PlainBetween(rs, from, i + 1)
  {
    Regroup(before, PlainBetween(rs, from, i), PlainOfOne(rs[i]));
  }

  lemma ControlsOneMore(before: seq<Protocol.Record>, controls: seq<Protocol.Record>, rs: seq<Protocol.Record>,
                        i: nat)
    requires i < |rs| && controls == before + ControlsOfFirst(rs, i)
    ensures (if rs[i].ct == Protocol.PLAIN_DATA then controls else controls + [rs[i]])
         == before + ControlsOfFirst(rs, i + 1)
  {
    Regroup(before, ControlsOfFirst(rs, i), [rs[i]]);
  }

  lemma PlainFromStart(rs: seq<Protocol.Record>, n: nat)
    requires n <= |rs|
    ensures PlainBetween(rs, 0, n) == PlainOfFirst(rs, n)
  {
  }

  /** How much of a packet has been handled, and how much of that before terminal mode was on. */
  predicate HandledSome(rs: seq<Protocol.Record>, handled: nat, muted: nat, before: bool, after: bool, cancelled: bool) {
    && muted <= handled <= |rs|
    && (before ==> after && muted == 0) && (!after ==> muted == handled)
    && (handled < |rs| ==> cancelled && rs[handled].ct != Protocol.PLAIN_DATA)
  }

  // ------------------------------------------------------- the peer is such a session

  lemma PipeSnoc(delivered: seq<seq<byte>>, payload: seq<byte>)
    ensures Pipe(delivered + [payload]) == Pipe(delivered) + Terminal(payload)
  {
    assert Outputs(delivered + [payload]) == Outputs(delivered) + [Terminal(payload)];
    ConcatOfPrefix(Outputs(delivered), Terminal(payload), 0, |delivered|);
  }

  lemma AllHandled(payload: seq<byte>, handled: nat, muted: nat, after: bool, cancelled: bool)
    requires HandledSome(Protocol.Records(payload), handled, muted, true, after, cancelled)
    ensures !cancelled ==> PlainBetween(Protocol.Records(payload), muted, handled) == Terminal(payload)
  {
    PlainFromStart(Protocol.Records(payload), handled);
  }

  /** The system's step, in the terms of ProcessInboundData. */
  lemma PeerStepIs(s: State, counter: uint32, payload: seq<byte>)
    requires s.data != [] && s.data[0].msg == Datagram(counter, payload)
    ensures var t, n := Apply(s, PeerReceive), ToUint32(|payload|);
            && t.mark == AfterIncoming(s.mark, counter)
            && t.acks == s.acks + [Copy(AckCounterFor(counter, n), s.data[0].origin)]
            && Pipe(t.delivered) == Pipe(s.delivered) + if IsNew(s.mark, counter) then Terminal(payload) else []
  {
    PipeSnoc(s.delivered, payload);
  }

  /** The peer of the transition system does what ProcessInboundData does: a session in terminal mode
      with the peer's mark and pipe that is handed the oldest datagram sends the ACK, moves the mark,
      and unless its context ends fills the pipe, just as the system's step does. */
  method PeerIsASession(peer: Session, ghost s: State, counter: uint32, payload: seq<byte>)
    requires s.data != [] && s.data[0].msg == Datagram(counter, payload)
    requires peer.terminalMode && peer.counters.Mark() == s.mark && peer.pipe == Pipe(s.delivered)
    modifies peer.counters`high, peer.counters`inSeen, peer`acksSent, peer`pipe, peer`controlCh,
             peer`cancelled, peer`terminalMode
    ensures var t := Apply(s, PeerReceive);
            && peer.counters.Mark() == t.mark
            && |peer.acksSent| > 0
            && t.acks == s.acks + [Copy(peer.acksSent[|peer.acksSent| - 1], s.data[0].origin)]
            && (!peer.cancelled ==> peer.pipe == Pipe(t.delivered))
  {
    PeerStepIs(s, counter, payload);
    var handled, muted := peer.ProcessInboundData(counter, payload);
    if IsNew(s.mark, counter) {
      AllHandled(payload, handled, muted, peer.terminalMode, peer.cancelled);
    }
  }
}
