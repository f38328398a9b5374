/** The login as a transition system: the driver (handshake and awaitControl in
    src/internal/mactelnet/session.go) and the receive loop (rxLoop and processInboundData in
    src/internal/mactelnet/loop.go) as they take turns in any order. */
module Handshake {
  import opened Uint32
  import opened Sequencing
  import opened Protocol
  import opened Wrappers
  import opened Limits
  import Auth
  import Runs

  const MD5_SALT_LEN := 16
  const ECSRP_SALT_LEN := 49

  // Who logs in, and the computation of the response from a salt, which may fail.
  datatype Account = Account(username: seq<byte>, clientPub: seq<byte>, termType: seq<byte>,
                             cols: uint16, rows: uint16, respond: seq<byte> -> Option<seq<byte>>)

  datatype Driver =
    | Starting
    | SendingInit(want: uint32)
    | AwaitingSalt
    | Answering(salt: seq<byte>)       // computing the response and building the second packet
    | SendingFinish(want: uint32)
    | AwaitingEnd
    | LoggedIn
    | Failed

  datatype State = State(
    account: Account,
    driver: Driver,
    out: uint32,
    ackCh: seq<uint32>,
    controlCh: seq<Record>,
    // the receive loop: its mark, and the records of a packet it has still to hand on
    mark: Incoming,
    pending: seq<Record>,
    terminalMode: bool,
    pipe: seq<byte>,
    cancelled: bool,
    // history: control records put into controlCh, how many of them the driver took, ACKs received
    // since the send under way (or the last one) began, and terminal output handed on, the first
    // `muted` pieces of it before terminal mode
    arrived: seq<Record>,
    taken: nat,
    heard: seq<uint32>,
    plain: seq<seq<byte>>,
    muted: nat)

  function Init(account: Account): State {
    State(account, Starting, 0, [], [], Incoming(0, false), [], false, [], false, [], 0, [], [], 0)
  }

  /** The two packets the driver sends. */
  function InitPacket(a: Account): seq<byte> {
    AllBytes(Auth.InitRecords(a.username, a.clientPub))
  }

  function FinishPacket(a: Account, response: seq<byte>): seq<byte> {
    AllBytes(Auth.FinishRecords(response, a.username, a.termType, a.cols, a.rows))
  }

  datatype Step =
    // the driver
    | BeginInit | BeginFinish      // drain ackCh, reserve, send
    | TakeAck
    | TakeControl
    | GiveUp                       // a deadline, a cancellation, a failure
    // the receive loop
    | ReceiveAck(counter: uint32)
    | ReceiveData(counter: uint32, payload: seq<byte>)
    | HandOn
    | DropRest
    // the caller
    | Cancel

  /** Whether the second packet can be built for a salt. */
  predicate Answers(a: Account, salt: seq<byte>) {
    a.respond(salt).Some? && |FinishPacket(a, a.respond(salt).value)| <= MAX_PAYLOAD
  }

  predicate Enabled(s: State, step: Step) {
    match step
    case BeginInit => s.driver.Starting? && |InitPacket(s.account)| <= MAX_PAYLOAD
    case BeginFinish => s.driver.Answering? && Answers(s.account, s.driver.salt)
    case TakeAck => (s.driver.SendingInit? || s.driver.SendingFinish?) && s.ackCh != []
    case TakeControl => (s.driver.AwaitingSalt? || s.driver.AwaitingEnd?) && s.controlCh != []
    case GiveUp => !s.driver.LoggedIn?
    case ReceiveAck(_) => s.pending == []
    case ReceiveData(_, _) => s.pending == []
    case HandOn => s.pending != [] && (s.pending[0].ct == PLAIN_DATA || |s.controlCh| < CONTROL_BUFFER)
    case DropRest => s.cancelled
    case Cancel => true
  }

  function BeginSend(s: State, length: nat): State {
    s.(out := Add32(s.out, ToUint32(length)), ackCh := [], heard := [])
  }

  /** What the driver does with a record of the type it waits for; others it drops. */
  function Took(driver: Driver, r: Record): Driver {
    if driver.AwaitingSalt? && r.ct == PASS_SALT then
      if SaltLength(|r.body|) then Answering(r.body) else Failed
    else if driver.AwaitingEnd? && r.ct == END_AUTH then LoggedIn
    else driver
  }

  predicate SaltLength(n: nat) {
    n == MD5_SALT_LEN || n == ECSRP_SALT_LEN
  }

  function Apply(s: State, step: Step): State
    requires Enabled(s, step)
  {
    match step
    case BeginInit =>
      var t := BeginSend(s, |InitPacket(s.account)|);
      t.(driver := SendingInit(t.out))
    case BeginFinish =>
      var t := BeginSend(s, |FinishPacket(s.account, s.account.respond(s.driver.salt).value)|);
      t.(driver := SendingFinish(t.out))
    case TakeAck =>
      var rest := s.(ackCh := s.ackCh[1..]);
      if s.ackCh[0] == s.driver.want then rest.(driver := if s.driver.SendingInit? then AwaitingSalt else AwaitingEnd)
      else rest
    case TakeControl =>
      var driver := Took(s.driver, s.controlCh[0]);
      s.(controlCh := s.controlCh[1..], taken := s.taken + 1, driver := driver,
         terminalMode := s.terminalMode || driver.LoggedIn?)
    case GiveUp => s.(driver := Failed)
    case ReceiveAck(c) =>
      s.(ackCh := if |s.ackCh| < ACK_BUFFER then s.ackCh + [c] else s.ackCh, heard := s.heard + [c])
    case ReceiveData(c, payload) =>
      s.(mark := AfterIncoming(s.mark, c), pending := if IsNew(s.mark, c) then Records(payload) else [])
    case HandOn => HandsOn(s.(pending := s.pending[1..]), s.pending[0])
    case DropRest => s.(pending := [])
    case Cancel => s.(cancelled := true)
  }

  /** The callback of processInboundData. */
  function HandsOn(s: State, r: Record): State {
    if r.ct != PLAIN_DATA then s.(controlCh := s.controlCh + [r], arrived := s.arrived + [r])
    else if s.terminalMode then s.(pipe := s.pipe + r.body, plain := s.plain + [r.body])
    else s.(plain := s.plain + [r.body], muted := s.muted + 1)
  }

  function Next(s: State, step: Step): Option<State> {
    if Enabled(s, step) then Some(Apply(s, step)) else None
  }

  function Exec(s: State, run: seq<Step>): Option<State> {
    Runs.Exec(Next, s, run)
  }

  // ------------------------------------------------------------------- invariant

  /** The first record of a type from `from` on. */
  predicate FirstOf(rs: seq<Record>, ct: cpType, from: nat, i: nat) {
    from <= i < |rs| && rs[i].ct == ct && forall k :: from <= k < i ==> rs[k].ct != ct
  }

  /** Whether a login can get past this salt: what the driver checks before it sends anything more. */
  predicate CanAnswer(a: Account, salt: seq<byte>) {
    SaltLength(|salt|) && |InitPacket(a)| <= MAX_PAYLOAD && Answers(a, salt)
  }

  /** How far the driver has got in the control records: `salt` is the index of the record it
      answers or answered. */
  predicate Progress(s: State, salt: nat) {
    && s.taken <= |s.arrived|
    && (s.driver.Starting? || s.driver.SendingInit? ==> s.taken == 0)
    && (s.driver.AwaitingSalt? ==> forall k :: 0 <= k < s.taken ==> s.arrived[k].ct != PASS_SALT)
    && (s.driver.Answering? || s.driver.SendingFinish? || s.driver.AwaitingEnd? || s.driver.LoggedIn? ==>
          FirstOf(s.arrived, PASS_SALT, 0, salt) && salt < s.taken)
    && (s.driver.Answering? || s.driver.SendingFinish? ==> s.taken == salt + 1)
    && (s.driver.AwaitingEnd? ==> forall k :: salt < k < s.taken ==> s.arrived[k].ct != END_AUTH)
    && (s.driver.LoggedIn? ==> FirstOf(s.arrived, END_AUTH, salt + 1, s.taken - 1))
  }

  /** What has been checked about the packets so far. */
  predicate Checked(s: State, salt: nat) {
    && (!s.driver.Starting? && !s.driver.Failed? ==> |InitPacket(s.account)| <= MAX_PAYLOAD)
    && (s.driver.Answering? ==>
          salt < |s.arrived| && s.driver.salt == s.arrived[salt].body && SaltLength(|s.driver.salt|))
    && (s.driver.SendingFinish? || s.driver.AwaitingEnd? || s.driver.LoggedIn? ==>
          salt < |s.arrived| && CanAnswer(s.account, s.arrived[salt].body))
  }

  ghost predicate ChannelsOk(s: State) {
    && s.taken <= |s.arrived| && s.controlCh == s.arrived[s.taken..]
    && (forall i :: 0 <= i < |s.ackCh| ==> s.ackCh[i] in s.heard)
    && (s.driver.SendingInit? || s.driver.SendingFinish? ==> s.driver.want == s.out)
    && (s.driver.AwaitingEnd? || s.driver.LoggedIn? ==> s.out in s.heard)
  }

  ghost predicate OutputOk(s: State) {
    && (s.terminalMode <==> s.driver.LoggedIn?)
    && s.muted <= |s.plain| && (!s.terminalMode ==> s.muted == |s.plain|)
    && s.pipe == Concat(s.plain, s.muted, |s.plain|)
  }

  ghost predicate Inv(s: State) {
    ChannelsOk(s) && OutputOk(s) && exists salt: nat :: Progress(s, salt) && Checked(s, salt)
  }

  lemma OutputStep(s: State, step: Step)
    requires OutputOk(s) && Enabled(s, step)
    ensures OutputOk(Apply(s, step))
  {
    if step.HandOn? {
      ConcatOfPrefix(s.plain, s.pending[0].body, s.muted, |s.plain|);
    }
  }

  lemma TakeKeepsChannels(s: State)
    requires ChannelsOk(s) && Enabled(s, TakeControl)
    ensures ChannelsOk(Apply(s, TakeControl))
  {
    assert s.arrived[s.taken..][1..] == s.arrived[s.taken + 1..];
  }

  lemma HandOnKeepsChannels(s: State)
    requires ChannelsOk(s) && Enabled(s, HandOn)
    ensures ChannelsOk(Apply(s, HandOn))
  {
    if s.pending[0].ct != PLAIN_DATA {
      assert (s.arrived + [s.pending[0]])[s.taken..] == s.arrived[s.taken..] + [s.pending[0]];
    }
  }

  lemma ChannelsStep(s: State, step: Step)
    requires ChannelsOk(s) && Enabled(s, step)
    ensures ChannelsOk(Apply(s, step))
  {
    if step.TakeControl? {
      TakeKeepsChannels(s);
    } else if step.HandOn? {
      HandOnKeepsChannels(s);
    }
  }

  lemma SaltTaken(s: State, salt: nat)
    requires ChannelsOk(s) && Progress(s, salt) && Checked(s, salt) && Enabled(s, TakeControl) && s.driver.AwaitingSalt?
    ensures Progress(Apply(s, TakeControl), s.taken) && Checked(Apply(s, TakeControl), s.taken)
  {
    assert s.controlCh[0] == s.arrived[s.taken];
  }

  lemma EndTaken(s: State, salt: nat)
    requires ChannelsOk(s) && Progress(s, salt) && Checked(s, salt) && Enabled(s, TakeControl) && s.driver.AwaitingEnd?
    ensures Progress(Apply(s, TakeControl), salt) && Checked(Apply(s, TakeControl), salt)
  {
    var t := Apply(s, TakeControl);
    assert s.controlCh[0] == s.arrived[s.taken];
    assert t.arrived == s.arrived && t.taken == s.taken + 1 && t.account == s.account;
  }

  lemma TakeKeepsProgress(s: State, salt: nat) returns (next: nat)
    requires ChannelsOk(s) && Progress(s, salt) && Checked(s, salt) && Enabled(s, TakeControl)
    ensures Progress(Apply(s, TakeControl), next) && Checked(Apply(s, TakeControl), next)
  {
    if s.driver.AwaitingSalt? {
      SaltTaken(s, salt);
      next := s.taken;
    } else {
      EndTaken(s, salt);
      next := salt;
    }
  }

  lemma FirstOfMore(rs: seq<Record>, r: Record, ct: cpType, from: nat, i: nat)
    requires FirstOf(rs, ct, from, i)
    ensures FirstOf(rs + [r], ct, from, i)
  {
    assert forall k :: from <= k <= i ==> (rs + [r])[k] == rs[k];
  }

  lemma MoreArrivedKeepsProgress(s: State, t: State, r: Record, salt: nat)
    requires Progress(s, salt) && Checked(s, salt)
    requires t.driver == s.driver && t.arrived == s.arrived + [r] && t.taken == s.taken && t.account == s.account
    ensures Progress(t, salt) && Checked(t, salt)
  {
    assert forall k :: 0 <= k < |s.arrived| ==> t.arrived[k] == s.arrived[k];
    if FirstOf(s.arrived, PASS_SALT, 0, salt) {
      FirstOfMore(s.arrived, r, PASS_SALT, 0, salt);
    }
    if s.driver.LoggedIn? {
      FirstOfMore(s.arrived, r, END_AUTH, salt + 1, s.taken - 1);
    }
  }

  lemma HandOnKeepsProgress(s: State, salt: nat)
    requires Progress(s, salt) && Checked(s, salt) && Enabled(s, HandOn)
    ensures Progress(Apply(s, HandOn), salt) && Checked(Apply(s, HandOn), salt)
  {
    if s.pending[0].ct == PLAIN_DATA {
      OthersKeepProgress(s, Apply(s, HandOn), salt);
    } else {
      MoreArrivedKeepsProgress(s, Apply(s, HandOn), s.pending[0], salt);
    }
  }

  lemma SendKeepsProgress(s: State, step: Step, salt: nat)
    requires Progress(s, salt) && Checked(s, salt) && Enabled(s, step)
    requires step.BeginInit? || step.BeginFinish? || step.TakeAck? || step.GiveUp?
    ensures Progress(Apply(s, step), salt) && Checked(Apply(s, step), salt)
  {
    var t := Apply(s, step);
    assert t.arrived == s.arrived && t.taken == s.taken && t.account == s.account;
  }

  lemma OthersKeepProgress(s: State, t: State, salt: nat)
    requires Progress(s, salt) && Checked(s, salt)
    requires t.driver == s.driver && t.arrived == s.arrived && t.taken == s.taken && t.account == s.account
    ensures Progress(t, salt) && Checked(t, salt)
  {
  }

  lemma ProgressStep(s: State, step: Step, salt: nat) returns (next: nat)
    requires ChannelsOk(s) && Progress(s, salt) && Checked(s, salt) && Enabled(s, step)
    ensures Progress(Apply(s, step), next) && Checked(Apply(s, step), next)
  {
    next := salt;
    if step.TakeControl? {
      next := TakeKeepsProgress(s, salt);
    } else if step.HandOn? {
      HandOnKeepsProgress(s, salt);
    } else if step.BeginInit? || step.BeginFinish? || step.TakeAck? || step.GiveUp? {
      SendKeepsProgress(s, step, salt);
    } else {
      OthersKeepProgress(s, Apply(s, step), salt);
    }
  }

  /** Every step of driver, receive loop and caller keeps the invariant, and the account. */
  lemma InvStep(s: State, step: Step)
    requires Inv(s) && Enabled(s, step)
    ensures Inv(Apply(s, step)) && Apply(s, step).account == s.account
  {
    ChannelsStep(s, step);
    OutputStep(s, step);
    var salt: nat :| Progress(s, salt) && Checked(s, salt);
    var next := ProgressStep(s, step, salt);
  }

  lemma InvReached(account: Account, run: seq<Step>, t: State)
    requires Exec(Init(account), run) == Some(t)
    ensures Inv(t) && t.account == account
  {
    assert Progress(Init(account), 0) && Checked(Init(account), 0);
    forall s: State, step: Step | Inv(s) && s.account == account && Next(s, step).Some?
      ensures Inv(Next(s, step).value) && Next(s, step).value.account == account
    {
      InvStep(s, step);
    }
    Runs.Invariant(Next, s => Inv(s) && s.account == account, Init(account), run, t);
  }

  // -------------------------------------------------------------------- gating

  /** How a login must have gone: of the control records that came in, the first PASSSALT has a known
      length and could be answered, and the driver went on to the first END_AUTH behind it, after it
      had received the counter that acknowledges its response. */
  ghost predicate LoginDone(s: State, salt: nat, end: nat) {
    && FirstOf(s.arrived, PASS_SALT, 0, salt) && CanAnswer(s.account, s.arrived[salt].body)
    && FirstOf(s.arrived, END_AUTH, salt + 1, end)
    && s.taken == end + 1
    && s.out in s.heard
  }

  lemma LoggedInIsDone(t: State) returns (salt: nat, end: nat)
    requires Inv(t) && t.terminalMode
    ensures LoginDone(t, salt, end)
  {
    salt :| Progress(t, salt) && Checked(t, salt);
    end := t.taken - 1;
  }

  /** The gate. In every interleaving: terminal mode is on only after a complete login, a byte is in
      the pipe only if it is on, and the pipe holds exactly the terminal output handed on since. */
  lemma TerminalModeIsGated(account: Account, run: seq<Step>, t: State)
    requires Exec(Init(account), run) == Some(t)
    ensures t.account == account
    ensures t.terminalMode ==> exists salt: nat, end: nat :: LoginDone(t, salt, end)
    ensures t.pipe != [] ==> t.terminalMode
    ensures t.muted <= |t.plain| && t.pipe == Concat(t.plain, t.muted, |t.plain|)
  {
    InvReached(account, run, t);
    if t.terminalMode {
      var salt, end := LoggedInIsDone(t);
    } else {
      assert t.pipe == [];
    }
  }

  lemma StepKeepsMode(s: State, step: Step)
    requires Enabled(s, step)
    ensures s.terminalMode ==> Apply(s, step).terminalMode && Apply(s, step).muted == s.muted
    ensures s.pipe <= Apply(s, step).pipe
  {
  }

  /** Terminal mode never goes off, and what has been handed on stays in the pipe. */
  lemma {:induction false} TerminalModeStaysOn(s: State, run: seq<Step>, t: State)
    requires Exec(s, run) == Some(t)
    ensures s.terminalMode ==> t.terminalMode && t.muted == s.muted
    ensures s.pipe <= t.pipe
  {
    if run != [] {
      var m := Runs.ExecLast(Next, s, run, t);
      TerminalModeStaysOn(s, run[..|run| - 1], m);
      StepKeepsMode(m, run[|run| - 1]);
    }
  }

  predicate Bounded(s: State) {
    |s.ackCh| <= 8 && |s.controlCh| <= 16
  }

  lemma BoundedStep(s: State, step: Step)
    requires Bounded(s) && Enabled(s, step)
    ensures Bounded(Apply(s, step))
  {
  }

  /** Neither channel ever holds more than its capacity. */
  lemma ChannelsAreBounded(account: Account, run: seq<Step>, t: State)
    requires Exec(Init(account), run) == Some(t)
    ensures |t.ackCh| <= 8 && |t.controlCh| <= 16
  {
    forall s: State, step: Step | Bounded(s) && Next(s, step).Some?
      ensures Bounded(Next(s, step).value)
    {
      BoundedStep(s, step);
    }
    Runs.Invariant(Next, s => Bounded(s), Init(account), run, t);
  }

  /** A packet that comes in again, before another new one does, changes nothing. */
  lemma RepeatIsIgnored(s: State, counter: uint32, payload: seq<byte>, later: State, again: seq<byte>)
    requires s.pending == [] && later.pending == []
    requires later.mark == Apply(s, ReceiveData(counter, payload)).mark
    ensures Apply(later, ReceiveData(counter, again)) == later
  {
  }

  // ------------------------------------------------- the condition is exact

  predicate Salted(s: State, body: seq<byte>) {
    exists i :: 0 <= i < |s.arrived| && FirstOf(s.arrived, PASS_SALT, 0, i) && s.arrived[i].body == body
  }

  lemma OneMore(account: Account, run: seq<Step>, s: State, step: Step) returns (longer: seq<Step>, t: State)
    requires Exec(Init(account), run) == Some(s) && Enabled(s, step)
    ensures longer == run + [step] && t == Apply(s, step) && Exec(Init(account), longer) == Some(t)
  {
    Runs.ExecSnoc(Next, Init(account), run, step);
    longer, t := run + [step], Apply(s, step);
  }

  lemma SendAcked(account: Account, run: seq<Step>, s: State, step: Step) returns (longer: seq<Step>, t: State)
    requires Exec(Init(account), run) == Some(s) && Enabled(s, step) && (step.BeginInit? || step.BeginFinish?)
    requires s.pending == []
    ensures Exec(Init(account), longer) == Some(t)
    ensures t.driver == if step.BeginInit? then AwaitingSalt else AwaitingEnd
    ensures t.pending == [] && t.controlCh == s.controlCh && t.arrived == s.arrived && t.mark == s.mark
    ensures t.account == s.account
  {
    longer, t := OneMore(account, run, s, step);
    longer, t := OneMore(account, longer, t, ReceiveAck(t.driver.want));
    longer, t := OneMore(account, longer, t, TakeAck);
  }

  lemma RecordTaken(account: Account, run: seq<Step>, s: State, r: Record, counter: uint32)
      returns (longer: seq<Step>, t: State)
    requires Exec(Init(account), run) == Some(s) && (s.driver.AwaitingSalt? || s.driver.AwaitingEnd?)
    requires s.pending == [] && s.controlCh == [] && IsNew(s.mark, counter)
    requires r.ct != PLAIN_DATA && |RecordBytes(r)| < TWO32
    ensures Exec(Init(account), longer) == Some(t) && t.driver == Took(s.driver, r)
    ensures t.terminalMode == (s.terminalMode || t.driver.LoggedIn?)
    ensures t.pending == [] && t.controlCh == [] && t.arrived == s.arrived + [r]
    ensures t.mark == Incoming(counter, true) && t.account == s.account
  {
    assert RecordBytes(r) + [] == RecordBytes(r);
    OneRecord(r, []);
    longer, t := OneMore(account, run, s, ReceiveData(counter, RecordBytes(r)));
    longer, t := OneMore(account, longer, t, HandOn);
    longer, t := OneMore(account, longer, t, TakeControl);
  }

  lemma LoginSucceeds(account: Account, body: seq<byte>) returns (run: seq<Step>, t: State)
    requires CanAnswer(account, body)
    ensures Exec(Init(account), run) == Some(t) && t.terminalMode && Salted(t, body)
  {
    run, t := SendAcked(account, [], Init(account), BeginInit);
    run, t := RecordTaken(account, run, t, Record(PASS_SALT, body), 0);
    assert t.arrived[0] == Record(PASS_SALT, body);
    run, t := SendAcked(account, run, t, BeginFinish);
    run, t := RecordTaken(account, run, t, Record(END_AUTH, []), 1);
    assert FirstOf(t.arrived, PASS_SALT, 0, 0);
  }

  lemma SaltedOnce(t: State, body: seq<byte>, salt: nat, end: nat)
    requires Salted(t, body) && LoginDone(t, salt, end)
    ensures CanAnswer(t.account, body)
  {
    var i :| 0 <= i < |t.arrived| && FirstOf(t.arrived, PASS_SALT, 0, i) && t.arrived[i].body == body;
    assert i == salt;
  }

  /** When a login can succeed, given the first PASSSALT that comes in: exactly if its length is 16 or
      49, a response to it can be computed, and both packets fit a datagram. */
  lemma LoginCanSucceedIff(account: Account, body: seq<byte>)
    ensures (exists run, t :: Exec(Init(account), run) == Some(t) && t.terminalMode && Salted(t, body))
       <==> CanAnswer(account, body)
    ensures CanAnswer(account, body) ==> |body| == 16 || |body| == 49
  {
    if CanAnswer(account, body) {
      var run, t := LoginSucceeds(account, body);
    }
    forall run, t | Exec(Init(account), run) == Some(t) && t.terminalMode && Salted(t, body)
      ensures CanAnswer(account, body)
    {
      TerminalModeIsGated(account, run, t);
      var salt: nat, end: nat :| LoginDone(t, salt, end);
      SaltedOnce(t, body, salt, end);
    }
  }

  /** The salt the driver is answering is the body of the first PASSSALT. */
  lemma AnsweredSalt(s: State, body: seq<byte>) returns (salt: nat)
    requires Inv(s) && s.driver == Answering(body)
    ensures FirstOf(s.arrived, PASS_SALT, 0, salt) && s.arrived[salt].body == body
  {
    salt :| Progress(s, salt) && Checked(s, salt);
  }

  lemma FirstStays(rs: seq<Record>, longer: seq<Record>, i: nat, j: nat)
    requires rs <= longer && FirstOf(rs, PASS_SALT, 0, i) && FirstOf(longer, PASS_SALT, 0, j)
    ensures i == j && longer[j] == rs[i]
  {
  }

  // ------------------------------------------------------------------ the driver

  /** What only the driver changes, and what nobody changes. */
  predicate DriverPart(s: State, t: State) {
    s.driver == t.driver && s.out == t.out && s.terminalMode == t.terminalMode
  }

  predicate Foreign(step: Step) {
    step.ReceiveAck? || step.ReceiveData? || step.HandOn? || step.DropRest? || step.Cancel?
  }

  class Login {
    const account: Account

    // The system this driver is part of, and the run that led to its present state.
    var sys: State
    ghost var run: seq<Step>
    // The payloads given to sendDataAndWaitAck.
    var sent: seq<seq<byte>>

    ghost predicate Valid()
      reads this
    {
      Exec(Init(account), run) == Some(sys) && sys.account == account
    }

    constructor (account: Account)
      ensures Valid() && this.account == account && sys == Init(account) && run == [] && sent == []
    {
      this.account := account;
      sys, run, sent := Init(account), [], [];
    }

    /** What a reader takes from the two packets. */
    predicate Introduced(packet: seq<byte>) {
      Auth.InitMeans(Records(packet), account.username, account.clientPub)
    }

    predicate Answered(packet: seq<byte>, salt: seq<byte>)
      requires account.respond(salt).Some?
    {
      Auth.FinishMeans(Records(packet), account.respond(salt).value, account.username, account.termType,
                       account.cols, account.rows)
    }

    method Do(step: Step)
      requires Valid() && Enabled(sys, step)
      modifies this`sys, this`run
      ensures Valid() && run == old(run) + [step] && sys == Apply(old(sys), step)
      ensures old(sys.arrived) <= sys.arrived
    {
      Runs.ExecSnoc(Next, Init(account), run, step);
      sys, run := Apply(sys, step), run + [step];
    }

    /** Any finite number of steps of the receive loop and the caller. */
    method Interfere()
      requires Valid()
      modifies this`sys, this`run
      ensures Valid() && old(run) <= run && DriverPart(sys, old(sys)) && old(sys.arrived) <= sys.arrived
    {
      var n: nat := *;
      while n > 0
        invariant Valid() && old(run) <= run && DriverPart(sys, old(sys)) && old(sys.arrived) <= sys.arrived
      {
        var step: Step := *;
        if Foreign(step) && Enabled(sys, step) {
          Do(step);
        }
        n := n - 1;
      }
    }

    /** Takes control records until one of the wanted type comes; every turn takes some time. */
    method AwaitControl(want: cpType, deadline: nat) returns (r: Option<Record>)
      requires Valid()
      requires (sys.driver.AwaitingSalt? && want == PASS_SALT) || (sys.driver.AwaitingEnd? && want == END_AUTH)
      modifies this`sys, this`run
      ensures Valid() && old(run) <= run && sys.out == old(sys.out) && old(sys.arrived) <= sys.arrived
      ensures r.Some? ==> r.value.ct == want && sys.driver == Took(old(sys.driver), r.value)
      ensures r.None? ==> sys.driver == old(sys.driver)
      ensures sys.terminalMode == (old(sys.terminalMode) || (r.Some? && want == END_AUTH))
    {
      var left := deadline;
      while left > 0
        invariant Valid() && old(run) <= run && DriverPart(sys, old(sys)) && old(sys.arrived) <= sys.arrived
      {
        Interfere();
        var ended: bool := *;
        if ended {
          return None;
        }
        if |sys.controlCh| > 0 {
          var cp := sys.controlCh[0];
          Do(TakeControl);
          if cp.ct == want {
            return Some(cp);
          }
        }
        left := left - 1;
      }
      return None;
    }

    /** Sends one packet of the login and waits for its ACK. */
    method SendAndWait(step: Step, payload: seq<byte>, deadline: nat) returns (ok: bool)
      requires Valid() && (step.BeginInit? || step.BeginFinish?) && Enabled(sys, step)
      requires step.BeginInit? ==> payload == InitPacket(account)
      requires step.BeginFinish? ==> payload == FinishPacket(account, account.respond(sys.driver.salt).value)
      modifies this
      ensures Valid() && old(run) <= run && sys.terminalMode == old(sys.terminalMode)
      ensures sent == old(sent) + [payload] && old(sys.arrived) <= sys.arrived
      ensures ok ==> sys.driver == if step.BeginInit? then AwaitingSalt else AwaitingEnd
      ensures !ok ==> !sys.driver.LoggedIn?
    {
      sent := sent + [payload];
      Do(step);
      var left := deadline;
      while left > 0
        invariant Valid() && old(run) <= run && sys.terminalMode == old(sys.terminalMode)
        invariant sent == old(sent) + [payload] && old(sys.arrived) <= sys.arrived
        invariant if step.BeginInit? then sys.driver.SendingInit? else sys.driver.SendingFinish?
      {
        Interfere();
        if |sys.ackCh| > 0 {
          var got, want := sys.ackCh[0], sys.driver.want;
          Do(TakeAck);
          if got == want {
            return true;
          }
        }
        left := left - 1;
      }
      return false;
    }

    /** The first half of the login: sends the key and waits for the salt. */
    method ObtainSalt(deadline: nat) returns (salt: Option<seq<byte>>)
      requires Valid() && sys.driver.Starting? && !sys.terminalMode && |account.clientPub| == PUBKEY_LEN
      modifies this
      ensures Valid() && old(run) <= run && !sys.terminalMode && !sys.driver.LoggedIn?
      ensures salt.Some? ==> sys.driver == Answering(salt.value)
      ensures salt.Some? ==> |sent| == |old(sent)| + 1 && old(sent) <= sent
      ensures salt.Some? ==> Auth.InitMeans(Records(sent[|old(sent)|]), account.username, account.clientPub)
    {
      var payloadBuf := new byte[MAX_PAYLOAD];
      var n, built := Auth.BuildAuthInit(payloadBuf, account.username, account.clientPub);
      if !built {
        return None;
      }
      var ok := SendAndWait(BeginInit, payloadBuf[..n], deadline);
      if !ok {
        return None;
      }
      var saltCp := AwaitControl(PASS_SALT, deadline);
      if saltCp.None? || !SaltLength(|saltCp.value.body|) {
        return None;
      }
      return Some(saltCp.value.body);
    }

    /** The second half: sends the response and waits for END_AUTH. */
    method Answer(salt: seq<byte>, response: seq<byte>, deadline: nat) returns (ok: bool)
      requires Valid() && sys.driver == Answering(salt) && !sys.terminalMode
      requires account.respond(salt) == Some(response)
      modifies this
      ensures Valid() && old(run) <= run
      ensures ok == sys.terminalMode && (!ok ==> !sys.driver.LoggedIn?)
      ensures old(sys.arrived) <= sys.arrived
      ensures ok ==> |sent| == |old(sent)| + 1 && old(sent) <= sent
      ensures ok ==> Auth.FinishMeans(Records(sent[|old(sent)|]), response, account.username, account.termType,
                                      account.cols, account.rows)
    {
      var payloadBuf := new byte[MAX_PAYLOAD];
      var n, built := Auth.BuildAuthFinish(payloadBuf, response, account.username, account.termType,
                                           account.cols, account.rows);
      if !built {
        return false;
      }
      ok := SendAndWait(BeginFinish, payloadBuf[..n], deadline);
      if !ok {
        return false;
      }
      var endCp := AwaitControl(END_AUTH, deadline);
      return endCp.Some?;
    }

    /** Logs in: succeeds if and only if terminal mode is on afterwards. A login that has succeeded sent
        two packets; the first is read as the name and the key, the second as the response to a salt, the
        name, the terminal type, the columns and the rows. */
    method Handshake(deadline: nat) returns (ok: bool)
      requires Valid() && sys.driver.Starting? && !sys.terminalMode && |account.clientPub| == PUBKEY_LEN
      modifies this
      ensures Valid() && old(run) <= run
      ensures ok <==> sys.terminalMode
      ensures ok ==> |sent| == |old(sent)| + 2 && Introduced(sent[|old(sent)|])
      ensures ok ==> exists salt: nat, end: nat ::
        LoginDone(sys, salt, end) && Answered(sent[|old(sent)| + 1], sys.arrived[salt].body)
      ensures !ok ==> sys.driver.Failed? && sys.pipe == []
    {
      var salt := ObtainSalt(deadline);
      ok := false;
      if salt.Some? {
        InvReached(account, run, sys);
        ghost var first := AnsweredSalt(sys, salt.value);
        ghost var before := sys;
        var response := account.respond(salt.value);
        if response.Some? {
          ok := Answer(salt.value, response.value, deadline);
          if ok {
            InvReached(account, run, sys);
            ghost var index, end := LoggedInIsDone(sys);
            FirstStays(before.arrived, sys.arrived, first, index);
          }
        }
      }
      if !ok {
        Do(GiveUp);
      }
      TerminalModeIsGated(account, run, sys);
    }
  }
}
