/** From the writes of the client to the terminal bytes the peer hands on. */
module ByteStream {
  import opened Uint32
  import opened StopAndWait
  import Reordering
  import Auth
  import Protocol
  import opened Wrappers
  import opened Limits

  /** What the client sends: terminal input as it is, and control records. */
  datatype Message = Input(p: seq<byte>) | Control(rs: seq<Protocol.Record>)

  /** The payload of the DATA packet that carries a message. */
  function Payload(m: Message): seq<byte> {
    match m
    case Input(p) => p
    case Control(rs) => Protocol.AllBytes(rs)
  }

  function SizeRecords(cols: uint16, rows: uint16): seq<Protocol.Record> {
    [Protocol.Record(Protocol.TERM_WIDTH, Auth.Le16(cols)), Protocol.Record(Protocol.TERM_HEIGHT, Auth.Le16(rows))]
  }

  lemma SizeBytes(cols: uint16, rows: uint16)
    ensures var rs := SizeRecords(cols, rows);
            Payload(Control(rs)) == Protocol.RecordBytes(rs[0]) + Protocol.RecordBytes(rs[1])
    ensures |Payload(Control(SizeRecords(cols, rows)))| == 22
  {
    var rs := SizeRecords(cols, rows);
    assert rs[1..] == [rs[1]];
    assert Protocol.AllBytes([rs[1]]) == Protocol.RecordBytes(rs[1]);
  }

  /** What a reader takes from a size packet: one TERM_WIDTH record with the columns and one TERM_HEIGHT
      record with the rows. */
  predicate SizeMeans(rs: seq<Protocol.Record>, cols: uint16, rows: uint16) {
    && |rs| == 2
    && Auth.OnlyAt(rs, 0, 5) && Auth.HoldsNumber(rs[0].body, cols)
    && Auth.OnlyAt(rs, 1, 6) && Auth.HoldsNumber(rs[1].body, rows)
  }

  lemma SizeIsRead(cols: uint16, rows: uint16)
    ensures SizeMeans(Protocol.Records(Payload(Control(SizeRecords(cols, rows)))), cols, rows)
  {
    SizeBytes(cols, rows);
    Protocol.RecordsAlone(SizeRecords(cols, rows));
    Auth.NumberHeld(cols);
    Auth.NumberHeld(rows);
  }

  function PlainOfOne(r: Protocol.Record): seq<byte> {
    if r.ct == Protocol.PLAIN_DATA then r.body else []
  }

  /** The terminal bytes among the first records, and those records that are not terminal bytes. */
  function PlainOfFirst(rs: seq<Protocol.Record>, n: nat): seq<byte>
    requires n <= |rs|
  {
    if n == 0 then []
    else PlainOfFirst(rs, n - 1) + PlainOfOne(rs[n - 1])
  }

  function ControlsOfFirst(rs: seq<Protocol.Record>, n: nat): seq<Protocol.Record>
    requires n <= |rs|
  {
    if n == 0 then []
    else if rs[n - 1].ct == Protocol.PLAIN_DATA then ControlsOfFirst(rs, n - 1)
    else ControlsOfFirst(rs, n - 1) + [rs[n - 1]]
  }

  function PlainBytes(rs: seq<Protocol.Record>): seq<byte> {
    PlainOfFirst(rs, |rs|)
  }

  /** The terminal bytes of one accepted payload, and of several. */
  function Terminal(payload: seq<byte>): seq<byte> {
    PlainBytes(Protocol.Records(payload))
  }

  function Outputs(payloads: seq<seq<byte>>): seq<seq<byte>> {
    seq(|payloads|, i requires 0 <= i < |payloads| => Terminal(payloads[i]))
  }

  function Pipe(payloads: seq<seq<byte>>): seq<byte> {
    Concat(Outputs(payloads), 0, |payloads|)
  }

  function Typed(m: Message): seq<byte> {
    if m.Input? then m.p else []
  }

  /** The input among the first messages. */
  function InputOf(ms: seq<Message>, n: nat): seq<byte>
    requires n <= |ms|
  {
    if n == 0 then [] else InputOf(ms, n - 1) + Typed(ms[n - 1])
  }

  /** A chunk of input comes out as it went in exactly if it does not look like a control record:
      it is shorter than nine bytes or does not begin with the magic. */
  lemma ChunkIntactIff(p: seq<byte>)
    requires p != []
    ensures Terminal(p) == p <==> !Protocol.Framed(p)
  {
    if Protocol.Framed(p) {
      PlainIsNoLonger(p);
    } else {
      var rs := Protocol.Records(p);
      assert rs == [Protocol.Record(Protocol.PLAIN_DATA, p)];
      assert PlainOfFirst(rs, 1) == PlainOfFirst(rs, 0) + p;
    }
  }

  lemma PlainIsNoLonger(p: seq<byte>)
    ensures |Terminal(p)| <= |p|
    ensures Protocol.Framed(p) ==> |Terminal(p)| < |p|
    decreases |p|
  {
    var rs := Protocol.Records(p);
    if p != [] && Protocol.Framed(p) {
      var body := p[Protocol.CP_HEADER_LEN..];
      var rest := body[Protocol.BodyLength(p)..];
      Protocol.RecordsFramed(p, body);
      PlainIsNoLonger(rest);
      PlainOfCons(rs[0], Protocol.Records(rest), |rs| - 1);
    } else if p != [] {
      assert PlainOfFirst(rs, 1) == PlainOfFirst(rs, 0) + p;
    }
  }

  lemma {:induction false} PlainOfCons(r: Protocol.Record, rs: seq<Protocol.Record>, n: nat)
    requires n <= |rs|
    ensures PlainOfFirst([r] + rs, n + 1) == PlainOfOne(r) + PlainOfFirst(rs, n)
  {
    var all := [r] + rs;
    if n == 0 {
      assert all[0] == r && PlainOfFirst(all, 0) == [];
      assert PlainOfOne(r) + [] == PlainOfOne(r) == [] + PlainOfOne(r);
    } else {
      PlainOfCons(r, rs, n - 1);
      assert all[n] == rs[n - 1];
      Regroup(PlainOfOne(r), PlainOfFirst(rs, n - 1), PlainOfOne(rs[n - 1]));
    }
  }

  lemma NothingPlain(rs: seq<Protocol.Record>, n: nat)
    requires n <= |rs| && Protocol.FramedRecords(rs)
    ensures PlainOfFirst(rs, n) == []
  {
  }

  /** A packet of control records contributes nothing to the pipe. */
  lemma ControlsAreSilent(rs: seq<Protocol.Record>)
    requires Protocol.FramedRecords(rs) && |Protocol.AllBytes(rs)| < TWO32
    ensures Terminal(Payload(Control(rs))) == []
  {
    Protocol.RecordsAlone(rs);
    NothingPlain(rs, |rs|);
  }

  // -------------------------------------------------------------- end to end

  /** A message that is read as it was meant, in one packet. */
  predicate Intact(m: Message) {
    match m
    case Input(p) => p != [] && !Protocol.Framed(p)
    case Control(rs) => Protocol.FramedRecords(rs) && |Protocol.AllBytes(rs)| <= MAX_PAYLOAD
  }

  /** Both packets of the login and every terminal size are control packets of this kind. */
  lemma ControlPacketsIntact(username: seq<byte>, clientPub: seq<byte>, response: seq<byte>, termType: seq<byte>,
                             cols: uint16, rows: uint16)
    ensures var init := Control(Auth.InitRecords(username, clientPub));
            Intact(init) <==> |Payload(init)| <= MAX_PAYLOAD
    ensures var finish := Control(Auth.FinishRecords(response, username, termType, cols, rows));
            Intact(finish) <==> |Payload(finish)| <= MAX_PAYLOAD
    ensures Intact(Control(SizeRecords(cols, rows)))
  {
    SizeBytes(cols, rows);
  }

  /** The sends of a state carried these messages. */
  predicate Carried(t: State, ms: seq<Message>) {
    |t.sent| == |ms| && forall k :: 0 <= k < |ms| ==> t.sent[k] == Payload(ms[k])
  }

  /** No input whose send has returned was given up. */
  predicate NoInputLost(t: State, ms: seq<Message>)
    requires t.phase.Waiting? ==> t.sent != []
  {
    forall k :: 0 <= k < Finished(t) && k < |ms| && ms[k].Input? ==> k in t.acked
  }

  function After(accepted: seq<nat>, n: nat): nat
    requires n <= |accepted|
  {
    if n == 0 then 0 else accepted[n - 1] + 1
  }

  predicate OnlyControls(ms: seq<Message>, from: nat, to: nat)
    requires to <= |ms|
  {
    forall k :: from <= k < to ==> !ms[k].Input?
  }

  lemma {:induction false} ControlsAddNothing(ms: seq<Message>, from: nat, to: nat)
    requires from <= to <= |ms| && OnlyControls(ms, from, to)
    ensures InputOf(ms, to) == InputOf(ms, from)
  {
    if from < to {
      ControlsAddNothing(ms, from, to - 1);
    }
  }

  ghost predicate EveryInputTaken(ms: seq<Message>, accepted: seq<nat>)
    requires Below(accepted, |ms|)
  {
    forall k :: 0 <= k < After(accepted, |accepted|) && ms[k].Input? ==> k in accepted
  }

  ghost predicate AllIntact(ms: seq<Message>) {
    forall k :: 0 <= k < |ms| ==> Intact(ms[k])
  }

  lemma OneMoreChunk(ms: seq<Message>, chunks: seq<seq<byte>>, k: nat, n: nat)
    requires k < |ms| && 0 < n <= |chunks| && chunks[n - 1] == Typed(ms[k])
    requires Concat(chunks, 0, n - 1) == InputOf(ms, k)
    ensures Concat(chunks, 0, n) == InputOf(ms, k + 1)
  {
  }

  ghost predicate ChunksTyped(ms: seq<Message>, accepted: seq<nat>, chunks: seq<seq<byte>>)
    requires Below(accepted, |ms|)
  {
    |chunks| == |accepted| && forall i :: 0 <= i < |accepted| ==> chunks[i] == Typed(ms[accepted[i]])
  }

  /** Between two accepted messages there is no input. */
  ghost predicate GapsAreControls(ms: seq<Message>, accepted: seq<nat>)
    requires Below(accepted, |ms|)
  {
    forall n {:trigger After(accepted, n)} :: 0 <= n < |accepted| ==>
      After(accepted, n) <= accepted[n] && OnlyControls(ms, After(accepted, n), accepted[n])
  }

  /** What is typed in the accepted messages is the input before the end of the last of them. */
  lemma {:induction false} AcceptedIsInput(ms: seq<Message>, accepted: seq<nat>, chunks: seq<seq<byte>>, n: nat)
    requires Below(accepted, |ms|) && GapsAreControls(ms, accepted)
    requires ChunksTyped(ms, accepted, chunks) && n <= |accepted|
    ensures After(accepted, n) <= |ms| && Concat(chunks, 0, n) == InputOf(ms, After(accepted, n))
  {
    if n > 0 {
      AcceptedIsInput(ms, accepted, chunks, n - 1);
      ControlsAddNothing(ms, After(accepted, n - 1), accepted[n - 1]);
      OneMoreChunk(ms, chunks, accepted[n - 1], n);
    }
  }

  lemma Gaps(ms: seq<Message>, accepted: seq<nat>)
    requires Increasing(accepted) && Below(accepted, |ms|) && EveryInputTaken(ms, accepted)
    ensures GapsAreControls(ms, accepted)
  {
    forall n: nat, k | n < |accepted| && After(accepted, n) <= k < accepted[n]
      ensures !ms[k].Input?
    {
      NotBetween(accepted, n, k);
    }
  }

  lemma NotBetween(accepted: seq<nat>, n: nat, k: nat)
    requires Increasing(accepted) && n < |accepted| && After(accepted, n) <= k < accepted[n]
    ensures k !in accepted && k < After(accepted, |accepted|)
  {
    forall i | 0 <= i < |accepted|
      ensures accepted[i] != k
    {
      if i < n {
        assert accepted[i] <= accepted[n - 1];
      }
    }
    assert accepted[n] <= accepted[|accepted| - 1];
  }

  lemma MessageIntact(m: Message)
    requires Intact(m)
    ensures Terminal(Payload(m)) == Typed(m)
  {
    match m
    case Input(p) => ChunkIntactIff(p);
    case Control(rs) => ControlsAreSilent(rs);
  }

  lemma PipeIsInput(ms: seq<Message>, accepted: seq<nat>, delivered: seq<seq<byte>>)
    requires Below(accepted, |ms|) && GapsAreControls(ms, accepted) && AllIntact(ms)
    requires |delivered| == |accepted|
    requires forall i :: 0 <= i < |accepted| ==> delivered[i] == Payload(ms[accepted[i]])
    ensures After(accepted, |accepted|) <= |ms|
    ensures Pipe(delivered) == InputOf(ms, After(accepted, |accepted|))
  {
    var chunks := Outputs(delivered);
    forall i | 0 <= i < |accepted|
      ensures chunks[i] == Typed(ms[accepted[i]])
    {
      assert delivered[i] == Payload(ms[accepted[i]]);
      MessageIntact(ms[accepted[i]]);
    }
    AcceptedIsInput(ms, accepted, chunks, |accepted|);
  }

  /** If no input was given up, every input before the end of the last accepted message was
      accepted: it was acknowledged, or it is that message. */
  lemma InputsTaken(t: State, ms: seq<Message>)
    requires |t.sent| == |ms| && (t.phase.Waiting? ==> t.sent != []) && NoInputLost(t, ms)
    requires Below(t.accepted, |t.sent|) && forall k :: k in t.acked ==> k in t.accepted
    ensures EveryInputTaken(ms, t.accepted)
  {
    forall k | 0 <= k < After(t.accepted, |t.accepted|) && ms[k].Input?
      ensures k in t.accepted
    {
      if k < Finished(t) {
        assert k in t.acked;
      } else {
        assert k == |t.sent| - 1 == t.accepted[|t.accepted| - 1];
      }
    }
  }

  lemma AckedIsBefore(acked: seq<nat>, accepted: seq<nat>)
    requires Increasing(accepted) && forall k :: k in acked ==> k in accepted
    ensures forall k :: k in acked ==> k < After(accepted, |accepted|)
  {
    forall k | k in acked
      ensures k < After(accepted, |accepted|)
    {
      var i :| 0 <= i < |accepted| && accepted[i] == k;
      assert accepted[i] <= accepted[|accepted| - 1];
    }
  }

  /** What both order theorems promise about a state. */
  ghost predicate Ordered(t: State) {
    && Increasing(t.accepted) && Below(t.accepted, |t.sent|) && |t.delivered| == |t.accepted|
    && (forall i :: 0 <= i < |t.accepted| ==> t.delivered[i] == t.sent[t.accepted[i]])
    && (forall k :: k in t.acked ==> k in t.accepted)
  }

  lemma OrderedStream(t: State, ms: seq<Message>) returns (n: nat)
    requires Ordered(t) && Carried(t, ms) && AllIntact(ms)
    requires (t.phase.Waiting? ==> t.sent != []) && NoInputLost(t, ms)
    ensures n <= |ms| && Pipe(t.delivered) == InputOf(ms, n)
    ensures forall k :: k in t.acked ==> k < n
  {
    n := After(t.accepted, |t.accepted|);
    InputsTaken(t, ms);
    Gaps(ms, t.accepted);
    PipeIsInput(ms, t.accepted, t.delivered);
    AckedIsBefore(t.acked, t.accepted);
  }

  /** The end-to-end theorem, for whole sessions: login packets, input and terminal sizes in any
      order, starting from the counter's first byte. Over channels that lose and duplicate but keep
      the order, within the flow condition, and with the receiver in terminal mode when input comes
      in: as long as no input is given up and no chunk of it looks like a control record, the bytes
      in the pipe are the input of some first part of the messages, and of at least all acknowledged
      ones. Control packets in between, acknowledged or not, add nothing. */
  lemma EndToEnd(run: seq<Step>, t: State, ms: seq<Message>) returns (n: nat)
    requires Reaches(run, t, FifoStep) && Carried(t, ms)
    requires AllIntact(ms)
    requires t.phase.Waiting? ==> t.sent != []
    requires NoInputLost(t, ms)
    ensures n <= |ms| && Pipe(t.delivered) == InputOf(ms, n)
    ensures forall k :: k in t.acked ==> k < n
  {
    InOrderExactlyOnce(run, t);
    n := OrderedStream(t, ms);
  }

  /** The same over channels that also reorder, on one lap of the counter and if no copy arrives more
      than 65535 bytes late. */
  lemma EndToEndReordered(run: seq<Step>, t: State, ms: seq<Message>) returns (n: nat)
    requires Reaches(run, t, Reordering.RestlessStep) && Carried(t, ms)
    requires AllIntact(ms)
    requires t.phase.Waiting? ==> t.sent != []
    requires NoInputLost(t, ms)
    ensures n <= |ms| && Pipe(t.delivered) == InputOf(ms, n)
    ensures forall k :: k in t.acked ==> k < n
  {
    Reordering.InOrderSubsequence(run, t);
    n := OrderedStream(t, ms);
  }

  /** What is in the pipe at any time is a prefix of all the input. */
  lemma InputGrows(ms: seq<Message>, n: nat)
    requires n <= |ms|
    ensures InputOf(ms, n) <= InputOf(ms, |ms|)
    decreases |ms| - n
  {
    if n < |ms| {
      InputGrows(ms, n + 1);
    }
  }

  /** A session is its login and then input and sizes: if every chunk of input is intact, all of it
      is, so the theorem above covers runs from the first login packet on. */
  lemma SessionIsIntact(username: seq<byte>, clientPub: seq<byte>, response: seq<byte>, termType: seq<byte>,
                        cols: uint16, rows: uint16, later: seq<Message>)
    requires |Payload(Control(Auth.InitRecords(username, clientPub)))| <= MAX_PAYLOAD
    requires |Payload(Control(Auth.FinishRecords(response, username, termType, cols, rows)))| <= MAX_PAYLOAD
    requires forall k :: 0 <= k < |later| ==>
      Intact(later[k]) || exists c: uint16, r: uint16 :: later[k] == Control(SizeRecords(c, r))
    ensures AllIntact([Control(Auth.InitRecords(username, clientPub)),
                       Control(Auth.FinishRecords(response, username, termType, cols, rows))] + later)
  {
    ControlPacketsIntact(username, clientPub, response, termType, cols, rows);
    forall k, c: uint16, r: uint16 | 0 <= k < |later| && later[k] == Control(SizeRecords(c, r))
      ensures Intact(later[k])
    {
      ControlPacketsIntact(username, clientPub, response, termType, c, r);
    }
  }
}
