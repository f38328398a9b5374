/** Ending a session: Close and fail of src/internal/mactelnet/session.go, called any number of times
    by anybody, their steps interleaved in any order. */
module Shutdown {
  import opened Wrappers
  import Runs

  /** The errors fail is called with: their dynamic type, and which one it is. */
  datatype Err = Err(typ: nat, id: nat)

  /** None is Go's nil. */
  datatype Kind = Closing | Failing(err: Option<Err>)

  datatype Effect = SendEnd | CancelContext | CloseConn | CloseSender | ClosePipeWriter | ClosePipeReader

  datatype Phase =
    | Recording           // fail: before the error is recorded
    | Claiming            // before the swap of the closed flag
    | Working(n: nat)     // the flag was won, the first `n` effects are done
    | AwaitingLoop        // Close: waiting for the receive loop to end
    | Returned(won: bool)
    | Panicked            // fail: the error recorded before has another type

  datatype Call = Call(kind: Kind, phase: Phase)

  datatype State = State(
    closed: bool,
    errVal: Option<Err>,
    loopEnded: bool,
    calls: seq<Call>,
    // history: the effects in the order they happened, the call that won the flag, and the errors
    // in the order they were offered
    effects: seq<Effect>,
    winner: Option<nat>,
    offered: seq<Err>)

  const INIT := State(false, None, false, [], [], None, [])

  /** What the winner does. */
  function Teardown(kind: Kind): seq<Effect> {
    if kind.Closing? then [SendEnd, CancelContext, CloseConn, CloseSender, ClosePipeWriter, ClosePipeReader]
    else [CancelContext, CloseConn, CloseSender, ClosePipeWriter]
  }

  datatype Step = Enter(kind: Kind) | Advance(i: nat) | LoopEnds

  predicate Enabled(s: State, step: Step) {
    match step
    case Enter(_) => true
    case Advance(i) =>
      && i < |s.calls| && !s.calls[i].phase.Returned? && !s.calls[i].phase.Panicked?
      && (s.calls[i].phase.AwaitingLoop? ==> s.loopEnded)
    case LoopEnds => true
  }

  function Moved(s: State, i: nat, phase: Phase): State
    requires i < |s.calls|
  {
    s.(calls := s.calls[i := Call(s.calls[i].kind, phase)])
  }

  /** Whether a call offers an error of another type than the one stored. */
  predicate Clashes(errVal: Option<Err>, kind: Kind) {
    kind.Failing? && kind.err.Some? && errVal.Some? && errVal.value.typ != kind.err.value.typ
  }

  /** Where one atomic action takes a call. The first action of fail is errVal.CompareAndSwap(nil, err),
      which panics on an error of another type than the one stored. */
  function NextPhase(closed: bool, errVal: Option<Err>, c: Call): Phase {
    match c.phase
    case Recording => if Clashes(errVal, c.kind) then Panicked else Claiming
    case Claiming => if closed then Returned(false) else Working(0)
    case Working(n) =>
      if n < |Teardown(c.kind)| then Working(n + 1)
      else if c.kind.Closing? then AwaitingLoop
      else Returned(true)
    case AwaitingLoop => Returned(true)
    case Returned(_) => c.phase
    case Panicked => c.phase
  }

  /** One atomic action of a call. */
  function Advanced(s: State, i: nat): State
    requires i < |s.calls|
  {
    var c := s.calls[i];
    var t := Moved(s, i, NextPhase(s.closed, s.errVal, c));
    match c.phase
    case Recording =>
      if c.kind.Closing? || c.kind.err.None? then t
      else t.(errVal := if s.errVal.None? then c.kind.err else s.errVal, offered := s.offered + [c.kind.err.value])
    case Claiming => if s.closed then t else t.(closed := true, winner := Some(i))
    case Working(n) =>
      if n < |Teardown(c.kind)| then t.(effects := s.effects + [Teardown(c.kind)[n]]) else t
    case AwaitingLoop => t
    case Returned(_) => t
    case Panicked => t
  }

  function Apply(s: State, step: Step): State
    requires Enabled(s, step)
  {
    match step
    case Enter(kind) => s.(calls := s.calls + [Call(kind, if kind.Closing? then Claiming else Recording)])
    case Advance(i) => Advanced(s, i)
    case LoopEnds => s.(loopEnded := true)
  }

  function Next(s: State, step: Step): Option<State> {
    if Enabled(s, step) then Some(Apply(s, step)) else None
  }

  function Exec(s: State, run: seq<Step>): Option<State> {
    Runs.Exec(Next, s, run)
  }

  // ------------------------------------------------------------------- invariant

  predicate Won(p: Phase) {
    p.Working? || p.AwaitingLoop? || p == Returned(true)
  }

  /** How many effects a call has had. */
  function Done(c: Call): nat {
    if c.phase.Working? then c.phase.n
    else if Won(c.phase) then |Teardown(c.kind)|
    else 0
  }

  predicate CallOk(c: Call) {
    && (c.phase.Recording? ==> c.kind.Failing?)
    && (c.phase.AwaitingLoop? ==> c.kind.Closing?)
    && Done(c) <= |Teardown(c.kind)|
  }

  /** A call that has lost found the flag up; a Close that has won has seen the receive loop end. */
  predicate ReturnOk(closed: bool, loopEnded: bool, c: Call) {
    && (c.phase == Returned(false) ==> closed)
    && (c.phase == Returned(true) && c.kind.Closing? ==> loopEnded)
  }

  ghost predicate CallsOk(s: State) {
    forall i :: 0 <= i < |s.calls| ==> CallOk(s.calls[i]) && ReturnOk(s.closed, s.loopEnded, s.calls[i])
  }

  ghost predicate FlagOk(s: State) {
    && (forall i :: 0 <= i < |s.calls| ==> (Won(s.calls[i].phase) <==> s.winner == Some(i)))
    && (s.winner.Some? ==> s.winner.value < |s.calls|)
    && (s.closed <==> s.winner.Some?)
  }

  ghost predicate EffectsAre(s: State, kind: Kind, n: nat) {
    n <= |Teardown(kind)| && s.effects == Teardown(kind)[..n]
  }

  ghost predicate EffectsOk(s: State)
    requires FlagOk(s)
  {
    if s.winner.None? then s.effects == []
    else EffectsAre(s, s.calls[s.winner.value].kind, Done(s.calls[s.winner.value]))
  }

  predicate ErrorOk(s: State) {
    s.errVal == if s.offered == [] then None else Some(s.offered[0])
  }

  /** A call that has offered its error found it stored, or one of its type, or has panicked. */
  predicate OfferOk(errVal: Option<Err>, c: Call) {
    c.kind.Failing? && c.kind.err.Some? && !c.phase.Recording? ==>
      errVal.Some? && (c.phase.Panicked? <==> errVal.value.typ != c.kind.err.value.typ)
  }

  predicate OffersOk(s: State) {
    forall i :: 0 <= i < |s.calls| ==>
      OfferOk(s.errVal, s.calls[i]) && (s.calls[i].phase.Panicked? ==> s.calls[i].kind.Failing? && s.calls[i].kind.err.Some?)
  }

  ghost predicate Inv(s: State) {
    CallsOk(s) && FlagOk(s) && EffectsOk(s) && ErrorOk(s) && OffersOk(s)
  }

  lemma TeardownGrows(kind: Kind, n: nat)
    requires n < |Teardown(kind)|
    ensures Teardown(kind)[..n] + [Teardown(kind)[n]] == Teardown(kind)[..n + 1]
  {
  }

  lemma OthersStay(s: State, step: Step, i: nat)
    requires Enabled(s, step) && step != Advance(i) && i < |s.calls|
    ensures i < |Apply(s, step).calls| && Apply(s, step).calls[i] == s.calls[i]
  {
  }

  /** The calls after a step: as before, but for one that has moved or begun. */
  lemma CallsAfter(s: State, step: Step, i: nat)
    requires Enabled(s, step) && i < |Apply(s, step).calls|
    ensures var c := Apply(s, step).calls[i];
            && (i >= |s.calls| ==> step.Enter? && c == Call(step.kind, if step.kind.Closing? then Claiming else Recording))
            && (i < |s.calls| ==>
                  c == if step == Advance(i) then Call(s.calls[i].kind, NextPhase(s.closed, s.errVal, s.calls[i]))
                       else s.calls[i])
    ensures (s.closed ==> Apply(s, step).closed) && (s.loopEnded ==> Apply(s, step).loopEnded)
    ensures step == Advance(i) && i < |s.calls| && s.calls[i].phase.AwaitingLoop? ==> s.loopEnded
  {
    if i < |s.calls| && step != Advance(i) {
      OthersStay(s, step, i);
    }
  }

  lemma NextPhaseOk(closed: bool, loopEnded: bool, errVal: Option<Err>, c: Call)
    requires CallOk(c) && ReturnOk(closed, loopEnded, c) && (c.phase.AwaitingLoop? ==> loopEnded)
    ensures var d := Call(c.kind, NextPhase(closed, errVal, c));
            CallOk(d) && ReturnOk(closed, loopEnded, d)
  {
  }

  lemma CallsStep(s: State, step: Step)
    requires CallsOk(s) && Enabled(s, step)
    ensures CallsOk(Apply(s, step))
  {
    var t := Apply(s, step);
    forall i | 0 <= i < |t.calls|
      ensures CallOk(t.calls[i]) && ReturnOk(t.closed, t.loopEnded, t.calls[i])
    {
      CallsAfter(s, step, i);
      if i < |s.calls| && step == Advance(i) {
        NextPhaseOk(s.closed, s.loopEnded, s.errVal, s.calls[i]);
      }
    }
  }

  lemma NextPhaseWon(closed: bool, errVal: Option<Err>, c: Call)
    ensures Won(NextPhase(closed, errVal, c)) <==> Won(c.phase) || (c.phase.Claiming? && !closed)
  {
  }

  /** A step raises the flag only if it is that of a call that finds it down. */
  lemma WinnerAfter(s: State, step: Step)
    requires Enabled(s, step)
    ensures var t := Apply(s, step);
            var wins := step.Advance? && s.calls[step.i].phase.Claiming? && !s.closed;
            && t.closed == (s.closed || wins)
            && t.winner == (if wins then Some(step.i) else s.winner)
            && |t.calls| >= |s.calls|
  {
  }

  lemma FlagStep(s: State, step: Step)
    requires FlagOk(s) && CallsOk(s) && Enabled(s, step)
    ensures FlagOk(Apply(s, step))
  {
    var t := Apply(s, step);
    WinnerAfter(s, step);
    forall i | 0 <= i < |t.calls|
      ensures Won(t.calls[i].phase) <==> t.winner == Some(i)
    {
      CallsAfter(s, step, i);
      if i < |s.calls| {
        NextPhaseWon(s.closed, s.errVal, s.calls[i]);
      }
    }
  }

  lemma EffectsStep(s: State, step: Step)
    requires FlagOk(s) && CallsOk(s) && EffectsOk(s) && Enabled(s, step) && FlagOk(Apply(s, step))
    ensures EffectsOk(Apply(s, step))
  {
    if step.Advance? {
      var c := s.calls[step.i];
      if c.phase.Working? {
        assert s.winner == Some(step.i);
        if c.phase.n < |Teardown(c.kind)| {
          TeardownGrows(c.kind, c.phase.n);
        }
      } else if c.phase.Claiming? && !s.closed {
        assert Teardown(c.kind)[..0] == [];
      }
    }
  }

  predicate ErrorKept(s: State, t: State) {
    s.errVal.Some? ==> t.errVal == s.errVal
  }

  lemma ErrorStep(s: State, step: Step)
    requires ErrorOk(s) && Enabled(s, step)
    ensures ErrorOk(Apply(s, step)) && ErrorKept(s, Apply(s, step))
    ensures step.Advance? ==>
      var c := s.calls[step.i];
      c.phase.Recording? && c.kind.Failing? && c.kind.err.Some? && s.errVal.None? ==> Apply(s, step).errVal == c.kind.err
  {
  }

  lemma OffersStep(s: State, step: Step)
    requires OffersOk(s) && CallsOk(s) && ErrorOk(s) && Enabled(s, step)
    ensures OffersOk(Apply(s, step))
  {
    var t := Apply(s, step);
    ErrorStep(s, step);
    forall i | 0 <= i < |t.calls|
      ensures OfferOk(t.errVal, t.calls[i])
      ensures t.calls[i].phase.Panicked? ==> t.calls[i].kind.Failing? && t.calls[i].kind.err.Some?
    {
      CallsAfter(s, step, i);
    }
  }

  /** Every action of every call keeps the invariant. */
  lemma InvStep(s: State, step: Step)
    requires Inv(s) && Enabled(s, step)
    ensures Inv(Apply(s, step))
  {
    CallsStep(s, step);
    FlagStep(s, step);
    EffectsStep(s, step);
    ErrorStep(s, step);
    OffersStep(s, step);
  }

  lemma InvReached(run: seq<Step>, t: State)
    requires Exec(INIT, run) == Some(t)
    ensures Inv(t)
  {
    forall s: State, step: Step | Inv(s) && Next(s, step).Some?
      ensures Inv(Next(s, step).value)
    {
      InvStep(s, step);
    }
    Runs.Invariant(Next, s => Inv(s), INIT, run, t);
  }

  // ----------------------------------------------------------------- exactly once

  /** In every interleaving of any number of calls: the effects so far are the first part of the
      teardown of one call, the one that won the flag. Hence nothing is closed twice, and END is sent at
      most once and only by a Close that won. */
  lemma TeardownOnce(run: seq<Step>, t: State)
    requires Exec(INIT, run) == Some(t)
    ensures t.closed <==> exists i :: 0 <= i < |t.calls| && Won(t.calls[i].phase)
    ensures forall i, j :: 0 <= i < j < |t.calls| ==> !(Won(t.calls[i].phase) && Won(t.calls[j].phase))
    ensures !t.closed ==> t.effects == []
    ensures forall i :: 0 <= i < |t.calls| && Won(t.calls[i].phase) ==> t.effects <= Teardown(t.calls[i].kind)
    ensures forall i, j :: 0 <= i < j < |t.effects| ==> t.effects[i] != t.effects[j]
    ensures SendEnd in t.effects ==> forall i :: 0 <= i < |t.calls| && Won(t.calls[i].phase) ==> t.calls[i].kind.Closing?
  {
    InvReached(run, t);
    if t.winner.Some? {
      assert Won(t.calls[t.winner.value].phase);
    }
  }

  /** If a Close has won, whatever has been closed by now was closed after END had gone out. */
  lemma EndGoesOutFirst(run: seq<Step>, t: State, i: nat, j: nat)
    requires Exec(INIT, run) == Some(t)
    requires i < |t.calls| && t.calls[i].kind.Closing? && Won(t.calls[i].phase)
    requires j < |t.effects| && t.effects[j] != SendEnd
    ensures j > 0 && t.effects[0] == SendEnd
  {
    TeardownOnce(run, t);
  }

  /** Whoever has won: the context is cancelled, then the socket, the sender, the pipe's writing end and
      its reading end are closed, each right behind the one before. */
  lemma ClosedInOrder(run: seq<Step>, t: State, j: nat)
    requires Exec(INIT, run) == Some(t) && j < |t.effects|
    ensures t.effects[j] == CloseConn ==> j > 0 && t.effects[j - 1] == CancelContext
    ensures t.effects[j] == CloseSender ==> j > 0 && t.effects[j - 1] == CloseConn
    ensures t.effects[j] == ClosePipeWriter ==> j > 0 && t.effects[j - 1] == CloseSender
    ensures t.effects[j] == ClosePipeReader ==> j > 0 && t.effects[j - 1] == ClosePipeWriter
  {
    TeardownOnce(run, t);
  }

  /** A call that has returned left nothing undone: somebody has won, and if it was this call its
      whole teardown has happened. A Close that won returns only after the receive loop has ended. */
  lemma ReturnedIsDone(run: seq<Step>, t: State, i: nat)
    requires Exec(INIT, run) == Some(t) && i < |t.calls| && t.calls[i].phase.Returned?
    ensures t.closed
    ensures t.calls[i].phase.won && t.calls[i].kind.Closing? ==>
      t.effects == [SendEnd, CancelContext, CloseConn, CloseSender, ClosePipeWriter, ClosePipeReader] && t.loopEnded
    ensures t.calls[i].phase.won && t.calls[i].kind.Failing? ==>
      t.effects == [CancelContext, CloseConn, CloseSender, ClosePipeWriter]
  {
    InvReached(run, t);
    if t.calls[i].phase.won {
      var c := t.calls[i];
      assert Teardown(c.kind)[..|Teardown(c.kind)|] == Teardown(c.kind);
    }
  }

  /** The recorded error is the first one offered, */
  lemma FirstErrorRecorded(run: seq<Step>, t: State)
    requires Exec(INIT, run) == Some(t)
    ensures t.errVal == if t.offered == [] then None else Some(t.offered[0])
  {
    InvReached(run, t);
  }

  /** a call panics on it exactly if its own error is of another type, */
  lemma PanicsIffTypesDiffer(run: seq<Step>, t: State, i: nat)
    requires Exec(INIT, run) == Some(t) && i < |t.calls|
    requires t.calls[i].kind.Failing? && t.calls[i].kind.err.Some? && !t.calls[i].phase.Recording?
    ensures t.errVal.Some?
    ensures t.calls[i].phase.Panicked? <==> t.errVal.value.typ != t.calls[i].kind.err.value.typ
  {
    InvReached(run, t);
    assert OfferOk(t.errVal, t.calls[i]);
  }

  /** and it is never overwritten; the flag never goes down and no effect is undone. */
  lemma {:induction false} NothingIsUndone(s: State, run: seq<Step>, t: State)
    requires Exec(s, run) == Some(t)
    ensures s.errVal.Some? ==> t.errVal == s.errVal
    ensures s.closed ==> t.closed
    ensures s.effects <= t.effects
  {
    if run != [] {
      var m := Runs.ExecLast(Next, s, run, t);
      NothingIsUndone(s, run[..|run| - 1], m);
      assert m.effects <= Apply(m, run[|run| - 1]).effects;
    }
  }

  // -------------------------------------------------------------------- the calls

  datatype FailResult = Wins | Loses | Panics

  class Session {
    // The system, and the run that led to its present state.
    var sys: State
    ghost var run: seq<Step>

    ghost predicate Valid()
      reads this
    {
      Exec(INIT, run) == Some(sys)
    }

    /** Whether call `i` is at this point. */
    predicate At(i: nat, kind: Kind, phase: Phase)
      reads this
    {
      i < |sys.calls| && sys.calls[i] == Call(kind, phase)
    }

    constructor ()
      ensures Valid() && sys == INIT
    {
      sys, run := INIT, [];
    }

    method Do(step: Step)
      requires Valid() && Enabled(sys, step)
      modifies this
      ensures Valid() && old(run) <= run && sys == Apply(old(sys), step)
    {
      Runs.ExecSnoc(Next, INIT, run, step);
      sys, run := Apply(sys, step), run + [step];
    }

    /** Any finite number of steps of the other calls and of the receive loop. */
    method Interfere(i: nat)
      requires Valid() && i < |sys.calls|
      modifies this
      ensures Valid() && old(run) <= run && ErrorKept(old(sys), sys)
      ensures i < |sys.calls| && sys.calls[i] == old(sys.calls[i])
    {
      var n: nat := *;
      while n > 0
        invariant Valid() && old(run) <= run && ErrorKept(old(sys), sys)
        invariant i < |sys.calls| && sys.calls[i] == old(sys.calls[i])
      {
        var step: Step := *;
        if step != Advance(i) && Enabled(sys, step) {
          OthersStay(sys, step, i);
          Do(step);
        }
        n := n - 1;
      }
    }

    method Begin(kind: Kind) returns (i: nat)
      requires Valid()
      modifies this
      ensures Valid() && old(run) <= run && ErrorKept(old(sys), sys)
      ensures At(i, kind, if kind.Closing? then Claiming else Recording)
    {
      i := |sys.calls|;
      Do(Enter(kind));
    }

    /** Records the error unless there is one already; one of another type makes it panic. */
    method Record(i: nat, err: Option<Err>) returns (ok: bool)
      requires Valid() && At(i, Failing(err), Recording)
      modifies this
      ensures Valid() && old(run) <= run && ErrorKept(old(sys), sys)
      ensures At(i, Failing(err), if ok then Claiming else Panicked)
      ensures err.Some? ==> sys.errVal.Some? && (ok <==> sys.errVal.value.typ == err.value.typ)
      ensures err.None? ==> ok
    {
      Interfere(i);
      ok := err.None? || sys.errVal.None? || sys.errVal.value.typ == err.value.typ;
      Do(Advance(i));
    }

    /** The swap of the closed flag: wins if it was down. */
    method Claim(i: nat, kind: Kind) returns (won: bool)
      requires Valid() && At(i, kind, Claiming)
      modifies this
      ensures Valid() && old(run) <= run && ErrorKept(old(sys), sys)
      ensures At(i, kind, if won then Working(0) else Returned(false))
    {
      Interfere(i);
      won := !sys.closed;
      Do(Advance(i));
    }

    /** One effect of the winner's teardown. */
    method Perform(i: nat, kind: Kind, n: nat, effect: Effect)
      requires Valid() && At(i, kind, Working(n)) && n < |Teardown(kind)| && effect == Teardown(kind)[n]
      modifies this
      ensures Valid() && old(run) <= run && ErrorKept(old(sys), sys) && At(i, kind, Working(n + 1))
    {
      Interfere(i);
      Do(Advance(i));
    }

    /** The effects Close and fail share, from the `n`-th on. */
    method Release(i: nat, kind: Kind, n: nat)
      requires Valid() && At(i, kind, Working(n)) && n == if kind.Closing? then 1 else 0
      modifies this
      ensures Valid() && old(run) <= run && ErrorKept(old(sys), sys) && At(i, kind, Working(n + 4))
    {
      Perform(i, kind, n, CancelContext);
      Perform(i, kind, n + 1, CloseConn);
      Perform(i, kind, n + 2, CloseSender);
      Perform(i, kind, n + 3, ClosePipeWriter);
    }

    /** The effects of a Close that won. */
    method SayGoodbye(i: nat)
      requires Valid() && At(i, Closing, Working(0))
      modifies this
      ensures Valid() && old(run) <= run && ErrorKept(old(sys), sys) && At(i, Closing, Working(6))
    {
      Perform(i, Closing, 0, SendEnd);
      Release(i, Closing, 1);
      Perform(i, Closing, 5, ClosePipeReader);
    }

    /** Returns; a Close waits for the receive loop to end first. */
    method Finish(i: nat, kind: Kind)
      requires Valid() && At(i, kind, Working(|Teardown(kind)|))
      modifies this
      ensures Valid() && old(run) <= run && ErrorKept(old(sys), sys) && At(i, kind, Returned(true))
      ensures kind.Closing? ==> sys.loopEnded
    {
      Do(Advance(i));
      if kind.Closing? {
        Interfere(i);
        Do(LoopEnds);
        Do(Advance(i));
      }
    }

    /** A Close returns with the session closed; if it was the one to close it, END was sent, the
        sockets and both ends of the pipe were closed, in this order and once each, and the receive
        loop has ended. */
    method Close() returns (won: bool)
      requires Valid()
      modifies this
      ensures Valid() && old(run) <= run && sys.closed && ErrorKept(old(sys), sys)
      ensures won ==>
        && sys.effects == [SendEnd, CancelContext, CloseConn, CloseSender, ClosePipeWriter, ClosePipeReader]
        && sys.loopEnded
    {
      var i := Begin(Closing);
      won := Claim(i, Closing);
      if won {
        SayGoodbye(i);
        Finish(i, Closing);
      }
      ReturnedIsDone(run, sys, i);
    }

    /** Either fail returns, with the session closed and, if it was given an error, one of that type
        recorded; or it panics, exactly if the error recorded before is of another type. It never
        replaces an error. */
    method Fail(err: Option<Err>) returns (r: FailResult)
      requires Valid()
      modifies this
      ensures Valid() && old(run) <= run && ErrorKept(old(sys), sys)
      ensures r.Panics? <==> err.Some? && sys.errVal.Some? && sys.errVal.value.typ != err.value.typ
      ensures !r.Panics? ==> sys.closed && (err.Some? ==> sys.errVal.Some?)
      ensures r.Wins? ==> sys.effects == [CancelContext, CloseConn, CloseSender, ClosePipeWriter]
    {
      var kind := Failing(err);
      var i := Begin(kind);
      var ok := Record(i, err);
      if !ok {
        return Panics;
      }
      var won := Claim(i, kind);
      if won {
        Release(i, kind, 0);
        Finish(i, kind);
      }
      ReturnedIsDone(run, sys, i);
      return if won then Wins else Loses;
    }
  }
}
