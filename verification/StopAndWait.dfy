/** The reliability protocol as a transition system: the sender of
    src/internal/mactelnet/session.go, a peer that follows processInboundData of
    src/internal/mactelnet/loop.go, and two lossy, duplicating channels between them. */
module StopAndWait {
  import opened Uint32
  import opened Sequencing
  import opened Wrappers
  import opened Limits
  import Runs

  datatype Datagram = Datagram(counter: uint32, payload: seq<byte>)

  // A copy of a message on its way. `origin` is the index of the send it stems from; it is history
  // for the proofs: no guard reads it and no wire value depends on it.
  datatype Copy<M> = Copy(msg: M, origin: nat)

  datatype Phase = Idle | Waiting(pkt: Datagram, want: uint32)

  datatype State = State(
    // the sender
    out: uint32,
    phase: Phase,
    ackCh: seq<Copy<uint32>>,
    // the network, oldest first
    data: seq<Copy<Datagram>>,
    acks: seq<Copy<uint32>>,
    // the receive half of the peer's counters, and the payloads it handed on
    mark: Incoming,
    delivered: seq<seq<byte>>,
    // history: payloads in the order they were sent, and the indices of the sends that returned
    // nil and of the datagrams the peer accepted, in the order this happened
    sent: seq<seq<byte>>,
    acked: seq<nat>,
    accepted: seq<nat>)

  const INIT := State(0, Idle, [], [], [], Incoming(0, false), [], [], [], [])

  datatype Step =
    // sendDataAndWaitAck
    | Drain                          // one stale ACK is taken off ackCh before a send
    | Begin(payload: seq<byte>)      // counter bytes are reserved and the datagram is built
    | Transmit                       // the datagram, first time or again, goes to the network
    | ConsumeAck                     // waitForAck takes one ACK off ackCh
    | GiveUp                         // schedule exhausted, send failure, or cancellation
    // rxLoop of the sender
    | ReceiveAck
    // the peer
    | PeerReceive
    // the network; a swap exchanges two neighbours, so swaps make any reordering
    | LoseData(i: nat) | DuplicateData(i: nat) | SwapData(i: nat)
    | LoseAck(i: nat) | DuplicateAck(i: nat) | SwapAck(i: nat)

  predicate Enabled(s: State, step: Step) {
    match step
    case Drain => s.phase.Idle? && s.ackCh != []
    case Begin(p) => s.phase.Idle? && 1 <= |p| <= MAX_PAYLOAD
    case Transmit => s.phase.Waiting? && s.sent != []
    case ConsumeAck => s.phase.Waiting? && s.sent != [] && s.ackCh != []
    case GiveUp => s.phase.Waiting?
    case ReceiveAck => s.acks != []
    case PeerReceive => s.data != []
    case LoseData(i) => i < |s.data|
    case DuplicateData(i) => i < |s.data|
    case SwapData(i) => i + 1 < |s.data|
    case LoseAck(i) => i < |s.acks|
    case DuplicateAck(i) => i < |s.acks|
    case SwapAck(i) => i + 1 < |s.acks|
  }

  function Remove<T>(s: seq<T>, i: nat): seq<T>
    requires i < |s|
  {
    s[..i] + s[i + 1..]
  }

  function Duplicate<T>(s: seq<T>, i: nat): seq<T>
    requires i < |s|
  {
    s[..i] + [s[i]] + s[i..]
  }

  function Swap<T>(s: seq<T>, i: nat): seq<T>
    requires i + 1 < |s|
  {
    s[i := s[i + 1]][i + 1 := s[i]]
  }

  function Apply(s: State, step: Step): State
    requires Enabled(s, step)
  {
    match step
    case Drain => s.(ackCh := s.ackCh[1..])
    case Begin(p) =>
      var n := ToUint32(|p|);
      s.(out := Add32(s.out, n),
         phase := Waiting(Datagram(s.out, p), AckCounterFor(s.out, n)),
         sent := s.sent + [p])
    case Transmit => s.(data := s.data + [Copy(s.phase.pkt, |s.sent| - 1)])
    case ConsumeAck =>
      var rest := s.(ackCh := s.ackCh[1..]);
      if s.ackCh[0].msg == s.phase.want
      then rest.(phase := Idle, acked := s.acked + [|s.sent| - 1])
      else rest
    case GiveUp => s.(phase := Idle)
    case ReceiveAck =>
      s.(acks := s.acks[1..],
         ackCh := if |s.ackCh| < ACK_BUFFER then s.ackCh + [s.acks[0]] else s.ackCh)
    case PeerReceive => PeerTakes(s.(data := s.data[1..]), s.data[0])
    case LoseData(i) => s.(data := Remove(s.data, i))
    case DuplicateData(i) => s.(data := Duplicate(s.data, i))
    case SwapData(i) => s.(data := Swap(s.data, i))
    case LoseAck(i) => s.(acks := Remove(s.acks, i))
    case DuplicateAck(i) => s.(acks := Duplicate(s.acks, i))
    case SwapAck(i) => s.(acks := Swap(s.acks, i))
  }

  /** processInboundData: always ACK, then move the mark and hand on what is new. */
  function PeerTakes(s: State, c: Copy<Datagram>): State {
    var ack := Copy(AckCounterFor(c.msg.counter, ToUint32(|c.msg.payload|)), c.origin);
    var t := s.(acks := s.acks + [ack], mark := AfterIncoming(s.mark, c.msg.counter));
    if IsNew(s.mark, c.msg.counter)
    then t.(delivered := s.delivered + [c.msg.payload], accepted := s.accepted + [c.origin])
    else t
  }

  function Next(s: State, step: Step): Option<State> {
    if Enabled(s, step) then Some(Apply(s, step)) else None
  }

  /** The state after a run from `s`, or None if some step of it is not enabled. */
  function Exec(s: State, run: seq<Step>): Option<State> {
    Runs.Exec(Next, s, run)
  }

  lemma ExecSnoc(s: State, run: seq<Step>, step: Step)
    requires Exec(s, run).Some? && Enabled(Exec(s, run).value, step)
    ensures Exec(s, run + [step]) == Some(Apply(Exec(s, run).value, step))
  {
    Runs.ExecSnoc(Next, s, run, step);
  }

  /** A run of the whole system that ends in `t` and every step of which is `ok` where it is taken. */
  ghost predicate Reaches(run: seq<Step>, t: State, ok: (State, Step) -> bool) {
    && Exec(INIT, run) == Some(t)
    && forall i :: 0 <= i < |run| && Exec(INIT, run[..i]).Some? ==> ok(Exec(INIT, run[..i]).value, run[i])
  }

  lemma ReachesSnoc(run: seq<Step>, s: State, step: Step, ok: (State, Step) -> bool)
    requires Reaches(run, s, ok) && Enabled(s, step) && ok(s, step)
    ensures Reaches(run + [step], Apply(s, step), ok)
  {
    var longer := run + [step];
    ExecSnoc(INIT, run, step);
    assert longer[..|run|] == run;
    forall i | 0 <= i < |longer| && Exec(INIT, longer[..i]).Some?
      ensures ok(Exec(INIT, longer[..i]).value, longer[i])
    {
      if i < |run| {
        assert longer[..i] == run[..i];
      }
    }
  }

  /** The last step of a run, and the run before it. */
  lemma ReachesInit(run: seq<Step>, t: State, ok: (State, Step) -> bool) returns (s: State)
    requires Reaches(run, t, ok) && run != []
    ensures Reaches(run[..|run| - 1], s, ok)
    ensures Enabled(s, run[|run| - 1]) && ok(s, run[|run| - 1]) && t == Apply(s, run[|run| - 1])
  {
    var n := |run| - 1;
    s := Exec(INIT, run[..n]).value;
    assert forall i :: 0 <= i < n ==> run[..n][..i] == run[..i];
  }

  // ------------------------------------------------------- stream offsets

  /** The unwrapped stream offset of send `k`: the bytes of all sends before it. */
  function Offset(sent: seq<seq<byte>>, k: nat): nat
    requires k <= |sent|
  {
    if k == 0 then 0 else Offset(sent, k - 1) + |sent[k - 1]|
  }

  function Total(sent: seq<seq<byte>>): nat {
    Offset(sent, |sent|)
  }

  lemma OffsetOfPrefix(sent: seq<seq<byte>>, p: seq<byte>, k: nat)
    requires k <= |sent|
    ensures Offset(sent + [p], k) == Offset(sent, k)
  {
  }

  predicate Sized(sent: seq<seq<byte>>) {
    forall k :: 0 <= k < |sent| ==> 1 <= |sent[k]| <= MAX_PAYLOAD
  }

  lemma OffsetGrows(sent: seq<seq<byte>>, j: nat, k: nat)
    requires Sized(sent) && j <= k <= |sent|
    ensures Offset(sent, j) + (k - j) <= Offset(sent, k)
    decreases k
  {
    if j < k {
      OffsetGrows(sent, j, k - 1);
    }
  }

  /** What send `k` puts on the wire, and the ACK that answers it. */
  function WireOf(sent: seq<seq<byte>>, k: nat): Datagram
    requires k < |sent|
  {
    Datagram(Offset(sent, k) % TWO32, sent[k])
  }

  function AckOf(sent: seq<seq<byte>>, k: nat): uint32
    requires k < |sent|
  {
    Offset(sent, k + 1) % TWO32
  }

  // ---------------------------------------- invariant of every run whatsoever

  ghost predicate SenderOk(s: State) {
    && Sized(s.sent)
    && s.out == Total(s.sent) % TWO32
    && (s.phase.Waiting? ==>
        && s.sent != []
        && s.phase.pkt == WireOf(s.sent, |s.sent| - 1)
        && s.phase.want == AckOf(s.sent, |s.sent| - 1))
  }

  ghost predicate CopyOk(sent: seq<seq<byte>>, c: Copy<Datagram>) {
    c.origin < |sent| && c.msg == WireOf(sent, c.origin)
  }

  ghost predicate AckOk(sent: seq<seq<byte>>, a: Copy<uint32>) {
    a.origin < |sent| && a.msg == AckOf(sent, a.origin)
  }

  /** The ACKs between the peer and the sender, oldest first. */
  function AckStream(s: State): seq<Copy<uint32>> {
    s.ackCh + s.acks
  }

  ghost predicate ChannelsOk(s: State) {
    && (forall c :: c in s.data ==> CopyOk(s.sent, c))
    && (forall a :: a in AckStream(s) ==> AckOk(s.sent, a))
  }

  function Last(s: seq<nat>): nat
    requires s != []
  {
    s[|s| - 1]
  }

  predicate Below(s: seq<nat>, n: nat) {
    forall i :: 0 <= i < |s| ==> s[i] < n
  }

  /** The peer's mark once these sends were accepted. */
  function MarkAfter(sent: seq<seq<byte>>, accepted: seq<nat>): Incoming
    requires accepted != [] ==> Last(accepted) < |sent|
  {
    if accepted == [] then Incoming(0, false) else Incoming(Offset(sent, Last(accepted)) % TWO32, true)
  }

  function Payloads(sent: seq<seq<byte>>, indices: seq<nat>): seq<seq<byte>>
    requires Below(indices, |sent|)
  {
    seq(|indices|, i requires 0 <= i < |indices| => sent[indices[i]])
  }

  ghost predicate PeerOk(s: State) {
    && Below(s.accepted, |s.sent|)
    && s.mark == MarkAfter(s.sent, s.accepted)
    && s.delivered == Payloads(s.sent, s.accepted)
  }

  ghost predicate WireInv(s: State) {
    SenderOk(s) && ChannelsOk(s) && PeerOk(s)
  }

  /** Channels that hold nothing new: the same messages, fewer of them, more copies, any order. */
  ghost predicate NothingNew(s: State, t: State) {
    && t == s.(data := t.data, ackCh := t.ackCh, acks := t.acks)
    && (forall c :: c in t.data ==> c in s.data)
    && (forall a :: a in AckStream(t) ==> a in AckStream(s))
  }

  predicate OnlyChannels(step: Step) {
    !step.Begin? && !step.Transmit? && !step.ConsumeAck? && !step.GiveUp? && !step.PeerReceive?
  }

  lemma ChannelStep(s: State, step: Step)
    requires Enabled(s, step) && OnlyChannels(step)
    ensures NothingNew(s, Apply(s, step))
  {
  }

  lemma NothingNewKeepsWireInv(s: State, t: State)
    requires WireInv(s) && NothingNew(s, t)
    ensures WireInv(t)
  {
  }

  lemma PeerKeepsChannels(s: State)
    requires WireInv(s) && s.data != []
    ensures ChannelsOk(Apply(s, PeerReceive))
  {
    var t, c := Apply(s, PeerReceive), s.data[0];
    assert CopyOk(s.sent, c);
    AddReduced(Offset(s.sent, c.origin), |c.msg.payload|);
    assert t.acks == s.acks + [Copy(AckOf(s.sent, c.origin), c.origin)];
  }

  lemma PeerKeepsPeer(s: State)
    requires WireInv(s) && s.data != []
    ensures PeerOk(Apply(s, PeerReceive))
  {
    assert CopyOk(s.sent, s.data[0]);
  }

  lemma TransmitKeepsWireInv(s: State)
    requires WireInv(s) && Enabled(s, Transmit)
    ensures WireInv(Apply(s, Transmit))
  {
    var t := Apply(s, Transmit);
    var c := Copy(s.phase.pkt, |s.sent| - 1);
    assert CopyOk(s.sent, c) && t.data == s.data + [c];
    assert AckStream(t) == AckStream(s);
  }

  lemma ConsumeKeepsWireInv(s: State)
    requires WireInv(s) && Enabled(s, ConsumeAck)
    ensures WireInv(Apply(s, ConsumeAck))
  {
    assert AckStream(Apply(s, ConsumeAck)) == AckStream(s)[1..];
  }

  lemma WireInvStep(s: State, step: Step)
    requires WireInv(s) && Enabled(s, step)
    ensures WireInv(Apply(s, step))
  {
    if step.Begin? {
      BeginKeepsWireInv(s, step.payload);
    } else if step.PeerReceive? {
      PeerKeepsChannels(s);
      PeerKeepsPeer(s);
    } else if step.Transmit? {
      TransmitKeepsWireInv(s);
    } else if step.ConsumeAck? {
      ConsumeKeepsWireInv(s);
    } else if OnlyChannels(step) {
      ChannelStep(s, step);
      NothingNewKeepsWireInv(s, Apply(s, step));
    } else {
      assert AckStream(Apply(s, step)) == AckStream(s);
    }
  }

  lemma BeginKeepsWireInv(s: State, p: seq<byte>)
    requires WireInv(s) && Enabled(s, Begin(p))
    ensures WireInv(Apply(s, Begin(p)))
  {
    var t := Apply(s, Begin(p));
    forall k: nat | k <= |s.sent|
      ensures Offset(t.sent, k) == Offset(s.sent, k)
    {
      OffsetOfPrefix(s.sent, p, k);
    }
    AddReduced(Total(s.sent), |p|);
    forall c | c in s.data
      ensures CopyOk(t.sent, c)
    {
      assert CopyOk(s.sent, c);
    }
    forall a | a in AckStream(s)
      ensures AckOk(t.sent, a)
    {
      assert AckOk(s.sent, a);
    }
  }

  // ------------------------------------------- channels that keep the order

  predicate Sorted<M>(s: seq<Copy<M>>) {
    forall i, j :: 0 <= i < j < |s| ==> s[i].origin <= s[j].origin
  }

  predicate Increasing(s: seq<nat>) {
    forall i, j :: 0 <= i < j < |s| ==> s[i] < s[j]
  }

  predicate KeepsOrder(step: Step) {
    !step.SwapData? && !step.SwapAck?
  }

  /** Where the last acknowledged send starts in the stream, or the start of the stream. */
  function Base(s: State): nat
    requires Below(s.acked, |s.sent|)
  {
    if s.acked == [] then 0 else Offset(s.sent, Last(s.acked))
  }

  /** A send starts at most `bound` bytes after the start of the last acknowledged one. */
  predicate StartsWithin(s: State, step: Step, bound: nat) {
    step.Begin? && Below(s.acked, |s.sent|) ==> Total(s.sent) - Base(s) <= bound
  }

  /** The flow condition. With every send acknowledged it holds by itself. */
  const WINDOW: nat := TWO32 - 65536

  predicate InWindow(s: State, step: Step) {
    StartsWithin(s, step, WINDOW)
  }

  /** A step over channels that keep their order, within the flow condition. */
  predicate FifoStep(s: State, step: Step) {
    KeepsOrder(step) && InWindow(s, step)
  }

  ghost predicate DataOrder(s: State) {
    && Sorted(s.data) && Increasing(s.accepted)
    && (s.accepted != [] ==> forall c :: c in s.data ==> Last(s.accepted) <= c.origin)
  }

  ghost predicate AckOrderOf(stream: seq<Copy<uint32>>, acked: seq<nat>, accepted: seq<nat>) {
    && Sorted(stream) && Increasing(acked)
    && (forall a :: a in stream ==> a.origin in accepted)
    && (acked != [] ==> forall a :: a in stream ==> Last(acked) <= a.origin)
  }

  ghost predicate AckOrder(s: State) {
    AckOrderOf(AckStream(s), s.acked, s.accepted)
  }

  ghost predicate OrderOk(s: State) {
    DataOrder(s) && AckOrder(s)
  }

  /** How many sends have returned. */
  function Finished(s: State): nat
    requires s.phase.Waiting? ==> s.sent != []
  {
    if s.phase.Waiting? then |s.sent| - 1 else |s.sent|
  }

  ghost predicate AckedOk(s: State)
    requires s.phase.Waiting? ==> s.sent != []
  {
    && (forall k :: k in s.acked ==> k in s.accepted)
    && Below(s.acked, Finished(s))
    && (s.sent != [] ==> Offset(s.sent, |s.sent| - 1) - Base(s) <= TWO32 - 65536)
  }

  ghost predicate FifoInv(s: State) {
    WireInv(s) && OrderOk(s) && AckedOk(s)
  }

  lemma NothingNewKeepsFifoInv(s: State, t: State)
    requires FifoInv(s) && NothingNew(s, t) && Sorted(t.data) && Sorted(AckStream(t))
    ensures FifoInv(t)
  {
  }

  lemma RemoveSorted<M>(s: seq<Copy<M>>, i: nat)
    requires i < |s| && Sorted(s)
    ensures Sorted(Remove(s, i))
  {
  }

  lemma DuplicateSorted<M>(s: seq<Copy<M>>, i: nat)
    requires i < |s| && Sorted(s)
    ensures Sorted(Duplicate(s, i))
  {
    var t := Duplicate(s, i);
    forall j, k | 0 <= j < k < |t|
      ensures t[j].origin <= t[k].origin
    {
      assert t[j] == s[if j <= i then j else j - 1];
      assert t[k] == s[if k <= i then k else k - 1];
    }
  }

  lemma AppendSorted<M>(s: seq<Copy<M>>, c: Copy<M>)
    requires Sorted(s) && forall a :: a in s ==> a.origin <= c.origin
    ensures Sorted(s + [c])
  {
  }

  lemma RemoveBehind<T>(a: seq<T>, b: seq<T>, i: nat)
    requires i < |b|
    ensures a + Remove(b, i) == Remove(a + b, |a| + i)
  {
    assert (a + b)[..|a| + i] == a + b[..i] && (a + b)[|a| + i + 1..] == b[i + 1..];
    Regroup(a, b[..i], b[i + 1..]);
  }

  lemma DuplicateBehind<T>(a: seq<T>, b: seq<T>, i: nat)
    requires i < |b|
    ensures a + Duplicate(b, i) == Duplicate(a + b, |a| + i)
  {
    assert (a + b)[..|a| + i] == a + b[..i] && (a + b)[|a| + i..] == b[i..];
  }

  lemma LoseAckSorted(s: State, i: nat)
    requires i < |s.acks| && Sorted(AckStream(s))
    ensures Sorted(s.ackCh + Remove(s.acks, i))
  {
    RemoveSorted(AckStream(s), |s.ackCh| + i);
    RemoveBehind(s.ackCh, s.acks, i);
  }

  lemma DuplicateAckSorted(s: State, i: nat)
    requires i < |s.acks| && Sorted(AckStream(s))
    ensures Sorted(s.ackCh + Duplicate(s.acks, i))
  {
    DuplicateSorted(AckStream(s), |s.ackCh| + i);
    DuplicateBehind(s.ackCh, s.acks, i);
  }

  lemma DrainSorted(s: State)
    requires s.ackCh != [] && Sorted(AckStream(s))
    ensures Sorted(s.ackCh[1..] + s.acks)
  {
    assert s.ackCh[1..] + s.acks == AckStream(s)[1..];
  }

  lemma ReceiveAckSorted(s: State)
    requires s.acks != [] && Sorted(AckStream(s))
    ensures Sorted(s.ackCh + [s.acks[0]] + s.acks[1..]) && Sorted(s.ackCh + s.acks[1..])
  {
    assert s.ackCh + [s.acks[0]] + s.acks[1..] == AckStream(s);
    LoseAckSorted(s, 0);
    assert Remove(s.acks, 0) == s.acks[1..];
  }

  lemma OrderedChannelStep(s: State, step: Step)
    requires Enabled(s, step) && OnlyChannels(step) && KeepsOrder(step)
    requires Sorted(s.data) && Sorted(AckStream(s))
    ensures Sorted(Apply(s, step).data) && Sorted(AckStream(Apply(s, step)))
  {
    if step.LoseData? {
      RemoveSorted(s.data, step.i);
    } else if step.DuplicateData? {
      DuplicateSorted(s.data, step.i);
    } else if step.LoseAck? {
      LoseAckSorted(s, step.i);
    } else if step.DuplicateAck? {
      DuplicateAckSorted(s, step.i);
    } else if step.Drain? {
      DrainSorted(s);
    } else {
      ReceiveAckSorted(s);
    }
  }

  /** Two sends that start within 2^32 bytes of each other end at different counters. */
  lemma EndsDiffer(sent: seq<seq<byte>>, base: nat, i: nat, j: nat)
    requires Sized(sent) && base <= i <= j < |sent| && Offset(sent, j) - Offset(sent, base) <= WINDOW
    requires AckOf(sent, i) == AckOf(sent, j)
    ensures i == j
  {
    OffsetGrows(sent, i + 1, j + 1);
    OffsetGrows(sent, base, i);
    SameResidue(Offset(sent, j + 1), Offset(sent, i + 1));
  }

  /** ACKs in the channel stem from sends since the last acknowledged one, so among them only the
      current send's own ACK has the counter the sender waits for. */
  lemma OnlyOwnAckMatches(s: State)
    requires FifoInv(s) && Enabled(s, ConsumeAck) && s.ackCh[0].msg == s.phase.want
    ensures s.ackCh[0].origin == |s.sent| - 1
  {
    var a := s.ackCh[0];
    assert AckStream(s)[0] == a;
    assert AckOk(s.sent, a);
    EndsDiffer(s.sent, if s.acked == [] then 0 else Last(s.acked), a.origin, |s.sent| - 1);
  }

  lemma TakeFirstAck(stream: seq<Copy<uint32>>, acked: seq<nat>, accepted: seq<nat>)
    requires AckOrderOf(stream, acked, accepted) && stream != []
    requires Below(acked, stream[0].origin)
    ensures AckOrderOf(stream[1..], acked + [stream[0].origin], accepted)
  {
    var rest := stream[1..];
    assert forall i :: 0 <= i < |rest| ==> rest[i] == stream[i + 1];
  }

  lemma AckMatchedOrder(s: State)
    requires FifoInv(s) && Enabled(s, ConsumeAck) && s.ackCh[0].msg == s.phase.want
    ensures OrderOk(Apply(s, ConsumeAck))
  {
    OnlyOwnAckMatches(s);
    assert AckStream(Apply(s, ConsumeAck)) == AckStream(s)[1..];
    TakeFirstAck(AckStream(s), s.acked, s.accepted);
  }

  lemma AckMatchedAcked(s: State)
    requires FifoInv(s) && Enabled(s, ConsumeAck) && s.ackCh[0].msg == s.phase.want
    ensures AckedOk(Apply(s, ConsumeAck))
  {
    OnlyOwnAckMatches(s);
    assert s.ackCh[0] in AckStream(s);
  }

  lemma AckMatched(s: State)
    requires FifoInv(s) && Enabled(s, ConsumeAck) && s.ackCh[0].msg == s.phase.want
    ensures FifoInv(Apply(s, ConsumeAck))
  {
    WireInvStep(s, ConsumeAck);
    AckMatchedOrder(s);
    AckMatchedAcked(s);
  }

  lemma AckIgnored(s: State)
    requires FifoInv(s) && Enabled(s, ConsumeAck) && s.ackCh[0].msg != s.phase.want
    ensures FifoInv(Apply(s, ConsumeAck))
  {
    var t := Apply(s, ConsumeAck);
    DrainSorted(s);
    assert AckStream(t) == AckStream(s)[1..];
    NothingNewKeepsFifoInv(s, t);
  }

  lemma ConsumeKeepsFifoInv(s: State)
    requires FifoInv(s) && Enabled(s, ConsumeAck)
    ensures FifoInv(Apply(s, ConsumeAck))
  {
    if s.ackCh[0].msg == s.phase.want {
      AckMatched(s);
    } else {
      AckIgnored(s);
    }
  }

  lemma BeginKeepsFifoInv(s: State, p: seq<byte>)
    requires FifoInv(s) && Enabled(s, Begin(p)) && InWindow(s, Begin(p))
    ensures FifoInv(Apply(s, Begin(p)))
  {
    WireInvStep(s, Begin(p));
    OffsetOfPrefix(s.sent, p, |s.sent|);
    if s.acked != [] {
      OffsetOfPrefix(s.sent, p, Last(s.acked));
    }
  }

  /** The datagram at the head of the channel is the last accepted one again, or it starts within
      the window after it: the peer takes it exactly if it has not taken it before. */
  lemma HeadIsNewIffUnseen(s: State)
    requires FifoInv(s) && s.data != []
    ensures IsNew(s.mark, s.data[0].msg.counter) <==> s.data[0].origin !in s.accepted
    ensures s.data[0].origin in s.accepted ==> s.data[0].origin == Last(s.accepted)
  {
    var c := s.data[0];
    assert CopyOk(s.sent, c);
    if s.accepted != [] {
      var from, to := Last(s.accepted), c.origin;
      assert from <= to;
      NewByOffset(Offset(s.sent, from), Offset(s.sent, to));
      if from < to {
        OffsetGrows(s.sent, from, to);
        OffsetGrows(s.sent, to, |s.sent| - 1);
        if s.acked != [] {
          assert Last(s.acked) in s.accepted;
          OffsetGrows(s.sent, Last(s.acked), from);
        }
        AheadIsNew(Offset(s.sent, from), Offset(s.sent, to));
      }
    }
  }

  lemma AckFromPeer(s: State)
    requires FifoInv(s) && s.data != []
    ensures var t := Apply(s, PeerReceive);
            |t.acks| == |s.acks| + 1 && t.acks[|s.acks|].origin == s.data[0].origin
            && AckStream(t) == AckStream(s) + [t.acks[|s.acks|]]
  {
  }

  lemma AppendAck(stream: seq<Copy<uint32>>, ack: Copy<uint32>, acked: seq<nat>, accepted: seq<nat>, more: seq<nat>)
    requires AckOrderOf(stream, acked, accepted)
    requires forall k :: k in accepted ==> k in more && k <= ack.origin
    requires ack.origin in more && forall k :: k in acked ==> k in accepted
    ensures AckOrderOf(stream + [ack], acked, more)
  {
    AppendSorted(stream, ack);
    if acked != [] {
      assert Last(acked) in acked;
    }
  }

  lemma PeerKeepsAckOrder(s: State)
    requires FifoInv(s) && s.data != []
    requires s.data[0].origin in s.accepted ==> s.data[0].origin == Last(s.accepted)
    requires IsNew(s.mark, s.data[0].msg.counter) <==> s.data[0].origin !in s.accepted
    ensures AckOrder(Apply(s, PeerReceive))
  {
    var t := Apply(s, PeerReceive);
    AckFromPeer(s);
    assert forall k :: k in s.accepted ==> k <= Last(s.accepted) <= s.data[0].origin;
    AppendAck(AckStream(s), t.acks[|s.acks|], s.acked, s.accepted, t.accepted);
  }

  lemma PeerKeepsDataOrder(s: State)
    requires FifoInv(s) && s.data != []
    requires s.data[0].origin in s.accepted ==> s.data[0].origin == Last(s.accepted)
    requires IsNew(s.mark, s.data[0].msg.counter) <==> s.data[0].origin !in s.accepted
    ensures DataOrder(Apply(s, PeerReceive))
  {
    var t, c := Apply(s, PeerReceive), s.data[0];
    assert t.data == s.data[1..] && c in s.data;
    assert Last(t.accepted) == c.origin;
  }

  lemma PeerKeepsAcked(s: State)
    requires FifoInv(s) && s.data != []
    ensures AckedOk(Apply(s, PeerReceive))
  {
  }

  lemma PeerKeepsFifoInv(s: State)
    requires FifoInv(s) && s.data != []
    ensures FifoInv(Apply(s, PeerReceive))
  {
    WireInvStep(s, PeerReceive);
    HeadIsNewIffUnseen(s);
    PeerKeepsAckOrder(s);
    PeerKeepsDataOrder(s);
    PeerKeepsAcked(s);
  }

  /** Every step that keeps the channels' order and the flow condition keeps the invariant. */
  lemma FifoInvStep(s: State, step: Step)
    requires FifoInv(s) && Enabled(s, step) && KeepsOrder(step) && InWindow(s, step)
    ensures FifoInv(Apply(s, step))
  {
    if step.Begin? {
      BeginKeepsFifoInv(s, step.payload);
    } else if step.Transmit? {
      TransmitKeepsFifoInv(s);
    } else if step.ConsumeAck? {
      ConsumeKeepsFifoInv(s);
    } else if step.GiveUp? {
      WireInvStep(s, step);
    } else if step.PeerReceive? {
      PeerKeepsFifoInv(s);
    } else {
      ChannelStep(s, step);
      OrderedChannelStep(s, step);
      NothingNewKeepsFifoInv(s, Apply(s, step));
    }
  }

  lemma TransmitKeepsDataOrder(s: State)
    requires FifoInv(s) && Enabled(s, Transmit)
    ensures DataOrder(Apply(s, Transmit))
  {
    var c := Copy(s.phase.pkt, |s.sent| - 1);
    forall d | d in s.data
      ensures d.origin <= c.origin
    {
      assert CopyOk(s.sent, d);
    }
    AppendSorted(s.data, c);
    if s.accepted != [] {
      assert s.accepted[|s.accepted| - 1] < |s.sent|;
    }
  }

  lemma TransmitKeepsFifoInv(s: State)
    requires FifoInv(s) && Enabled(s, Transmit)
    ensures FifoInv(Apply(s, Transmit))
  {
    WireInvStep(s, Transmit);
    TransmitKeepsDataOrder(s);
    assert AckStream(Apply(s, Transmit)) == AckStream(s);
  }

  lemma {:induction false} FifoInvReached(run: seq<Step>, t: State)
    requires Reaches(run, t, FifoStep)
    ensures FifoInv(t)
  {
    if run != [] {
      var s := ReachesInit(run, t, FifoStep);
      FifoInvReached(run[..|run| - 1], s);
      FifoInvStep(s, run[|run| - 1]);
    }
  }

  /** The main theorem for channels that lose and duplicate but keep the order. Whatever the
      interleaving, however many sends were given up and however often the counter wrapped: what
      the peer handed on is a subsequence of what was sent, in order and without duplicates, and
      it contains every send that returned nil. */
  lemma InOrderExactlyOnce(run: seq<Step>, t: State)
    requires Reaches(run, t, FifoStep)
    ensures Increasing(t.accepted) && Below(t.accepted, |t.sent|)
    ensures |t.delivered| == |t.accepted|
    ensures forall i :: 0 <= i < |t.accepted| ==> t.delivered[i] == t.sent[t.accepted[i]]
    ensures Increasing(t.acked) && forall k :: k in t.acked ==> k in t.accepted
  {
    FifoInvReached(run, t);
  }
}
