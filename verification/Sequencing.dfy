/** Byte counters and the retransmit schedule (src/internal/mactelnet/seq.go). */
module Sequencing {
  import opened Uint32
  import opened Limits

  // ---------------------------------------------------------------- counters

  /** How far behind the high-water mark a counter may be and still count as stale. */
  const WRAP_THRESHOLD := 65535

  /** The receive half of the counters: the mark, and whether anything was seen. */
  datatype Incoming = Incoming(high: uint32, seen: bool)

  /** A counter is new unless, going backwards around the 32-bit circle from the mark,
      it is met within the threshold and before zero is crossed. */
  predicate IsNew(m: Incoming, counter: uint32) {
    m.seen ==> Sub32(m.high, counter) > WRAP_THRESHOLD || Sub32(m.high, counter) > m.high
  }

  /** The mark after a counter was looked at. */
  function AfterIncoming(m: Incoming, counter: uint32): Incoming {
    if IsNew(m, counter) then Incoming(counter, true) else m
  }

  function AckCounterFor(inboundSeq: uint32, payloadLen: uint32): uint32 {
    Add32(inboundSeq, payloadLen)
  }

  class Counters {
    var out: uint32
    var high: uint32
    var inSeen: bool

    constructor ()
      ensures out == 0 && Mark() == Incoming(0, false)
    {
      out, high, inSeen := 0, 0, false;
    }

    function Mark(): Incoming
      reads this
    {
      Incoming(high, inSeen)
    }

    /** Allocates `n` counter bytes and returns the counter for the wire. */
    method ReserveOut(n: uint32) returns (counter: uint32)
      modifies this`out
      ensures counter == old(out)
      ensures out == AckCounterFor(counter, n)
    {
      counter := out;
      out := Add32(out, n);
    }

    /** Decides whether `counter` is new and moves the mark if it is. */
    method AcceptIncoming(counter: uint32) returns (ok: bool)
      modifies this`high, this`inSeen
      ensures ok <==> IsNew(old(Mark()), counter)
      ensures Mark() == AfterIncoming(old(Mark()), counter)
    {
      if !inSeen {
        inSeen := true;
        high := counter;
        return true;
      }
      if counter > high {
        high := counter;
        return true;
      }
      if Sub32(high, counter) > WRAP_THRESHOLD {
        high := counter;
        return true;
      }
      return false;
    }
  }

  /** What the rule decides about a packet whose stream offset is `to` when the mark stands at
      the packet of offset `from`; offsets are not wrapped. Both directions, for all offsets. */
  lemma NewByOffset(from: nat, to: nat)
    ensures IsNew(Incoming(from % TWO32, true), to % TWO32)
       <==> (from - to) % TWO32 > 65535 || (from - to) % TWO32 > from % TWO32
  {
    SubReduced(from, to);
  }

  /** Ahead by at most 2^32 - 65536 bytes is always new, however the counter wraps. */
  lemma AheadIsNew(from: nat, to: nat)
    requires 0 < to - from <= TWO32 - 65536
    ensures IsNew(Incoming(from % TWO32, true), to % TWO32)
  {
    NewByOffset(from, to);
    assert (from - to) % TWO32 == from - to + TWO32;
  }

  /** Behind on the same lap is new exactly when it is more than the threshold behind. */
  lemma BehindIsStale(from: nat, to: nat)
    requires to <= from < TWO32
    ensures IsNew(Incoming(from, true), to) <==> from - to > 65535
  {
    NewByOffset(from, to);
  }

  /** The bound of AheadIsNew is tight: one byte further on, from any mark at 65535 or above on
      its lap, the packet is taken for a stale copy. */
  lemma TooFarAheadIsStale(from: nat)
    requires from % TWO32 >= 65535
    ensures !IsNew(Incoming(from % TWO32, true), (from + TWO32 - 65535) % TWO32)
  {
    NewByOffset(from, from + TWO32 - 65535);
  }

  // --------------------------------------------------- retransmit schedule

  // time.Duration is an int64 number of nanoseconds.
  const MAX_INT64: int := 0x7fff_ffff_ffff_ffff
  const UPSTREAM_RAMP: seq<int> :=
    [15_000_000, 20_000_000, 30_000_000, 50_000_000, 90_000_000,
     170_000_000, 330_000_000, 660_000_000, 1_000_000_000]

  type int64 = x: int | -0x8000_0000_0000_0000 <= x <= 0x7fff_ffff_ffff_ffff

  /** int64 addition, which wraps. */
  function AddInt64(x: int64, y: int64): int64 {
    var sum := x + y;
    if sum > MAX_INT64 then sum - 0x1_0000_0000_0000_0000
    else if sum < -MAX_INT64 - 1 then sum + 0x1_0000_0000_0000_0000
    else sum
  }

  function Sum(s: seq<int>): int {
    if s == [] then 0 else Sum(s[..|s| - 1]) + s[|s| - 1]
  }

  lemma SumSnoc(s: seq<int>, x: int)
    ensures Sum(s + [x]) == Sum(s) + x
  {
    assert (s + [x])[..|s|] == s;
  }

  /** The first `k` entries of the ramp and then `m` whole seconds. */
  function Whole(k: nat, m: nat): seq<int>
    requires k <= |UPSTREAM_RAMP|
  {
    if m == 0 then UPSTREAM_RAMP[..k] else Whole(k, m - 1) + [SECOND]
  }

  /** As much of the ramp as fits in the budget, and once the whole ramp fits whole seconds,
      and last whatever is left over. */
  ghost predicate RampThenSeconds(out: seq<int>, budget: int) {
    exists k: nat, m: nat :: k <= |UPSTREAM_RAMP| && IsSchedule(out, k, m, budget)
  }

  ghost predicate IsSchedule(out: seq<int>, k: nat, m: nat, budget: int)
    requires k <= |UPSTREAM_RAMP|
  {
    var rest := budget - Sum(Whole(k, m));
    && (k < |UPSTREAM_RAMP| ==> m == 0 && rest < UPSTREAM_RAMP[k])
    && 0 <= rest < SECOND
    && out == if rest > 0 then Whole(k, m) + [rest] else Whole(k, m)
  }

  /** The largest budget for which padding ends before an int64 sum overflows. */
  const MAX_BUDGET := 9_223_372_036_364_999_999

  lemma WholeEntries(k: nat, m: nat)
    requires k <= |UPSTREAM_RAMP|
    ensures forall i :: 0 <= i < |Whole(k, m)| ==> 0 < Whole(k, m)[i] <= SECOND
  {
  }

  lemma WholeSum(k: nat, m: nat)
    requires k <= |UPSTREAM_RAMP|
    ensures Sum(Whole(k, m)) == Sum(UPSTREAM_RAMP[..k]) + m * SECOND
  {
    if m > 0 {
      SumSnoc(Whole(k, m - 1), SECOND);
    }
  }

  lemma RampSum(k: nat)
    requires k <= |UPSTREAM_RAMP|
    ensures Sum(UPSTREAM_RAMP[..k]) == [0, 15, 35, 65, 115, 205, 375, 705, 1365, 2365][k] * 1_000_000
    ensures k < |UPSTREAM_RAMP| ==> UPSTREAM_RAMP[k] <= SECOND
    ensures k < |UPSTREAM_RAMP| ==> UPSTREAM_RAMP[..k + 1] == UPSTREAM_RAMP[..k] + [UPSTREAM_RAMP[k]]
    ensures k < |UPSTREAM_RAMP| ==> Sum(UPSTREAM_RAMP[..k + 1]) == Sum(UPSTREAM_RAMP[..k]) + UPSTREAM_RAMP[k]
  {
    if k < |UPSTREAM_RAMP| {
      SumSnoc(UPSTREAM_RAMP[..k], UPSTREAM_RAMP[k]);
    }
    if k > 0 {
      RampSum(k - 1);
    }
  }

  /** Below the largest budget no sum the padding loop forms overflows. */
  lemma NoOverflow(k: nat, m: nat, budget: int)
    requires k <= |UPSTREAM_RAMP| && Sum(Whole(k, m)) <= budget <= MAX_BUDGET
    requires k < |UPSTREAM_RAMP| ==> m == 0
    ensures 0 <= Sum(Whole(k, m)) <= MAX_INT64 - SECOND
  {
    RampSum(k);
    WholeSum(k, m);
  }

  /** One turn of the padding loop, its guard, and the sum after some turns. */
  function PadTurn(sum: int64): int64 {
    AddInt64(sum, SECOND)
  }

  predicate PadsOn(sum: int64, budget: int64) {
    PadTurn(sum) <= budget
  }

  function Padded(start: int64, turns: nat): int64 {
    if turns == 0 then start else PadTurn(Padded(start, turns - 1))
  }

  const RAMP_TOTAL: int64 := 2_365_000_000

  lemma {:induction false} PaddedIs(turns: nat)
    requires turns <= 9_223_372_034
    ensures Padded(RAMP_TOTAL, turns) == RAMP_TOTAL + turns * SECOND
  {
    if turns > 0 {
      PaddedIs(turns - 1);
    }
  }

  /** For every larger budget the padding loop runs past the end of int64: behind the whole ramp it
      is still going when its sum wraps to a negative number. */
  lemma PaddingOverflows(budget: int64)
    requires MAX_BUDGET < budget
    ensures Sum(UPSTREAM_RAMP) == RAMP_TOTAL
    ensures forall turns: nat :: turns <= 9_223_372_034 ==> PadsOn(Padded(RAMP_TOTAL, turns), budget)
    ensures Padded(RAMP_TOTAL, 9_223_372_035) < 0
  {
    RampSum(|UPSTREAM_RAMP|);
    assert UPSTREAM_RAMP[..|UPSTREAM_RAMP|] == UPSTREAM_RAMP;
    forall turns: nat | turns <= 9_223_372_034
      ensures PadsOn(Padded(RAMP_TOTAL, turns), budget)
    {
      PaddedIs(turns);
    }
    PaddedIs(9_223_372_034);
  }

  lemma ScheduleWaits(out: seq<int>, k: nat, m: nat, budget: int)
    requires k <= |UPSTREAM_RAMP| && IsSchedule(out, k, m, budget)
    ensures Sum(out) == budget && RampThenSeconds(out, budget)
    ensures forall i :: 0 <= i < |out| ==> 0 < out[i] <= SECOND
  {
    var whole := Whole(k, m);
    var rest := budget - Sum(whole);
    WholeEntries(k, m);
    SumSnoc(whole, rest);
    assert RampThenSeconds(out, budget);
    forall i | 0 <= i < |out|
      ensures 0 < out[i] <= SECOND
    {
      assert i < |whole| ==> out[i] == whole[i];
    }
  }

  /** The first loop of the builder: the ramp for as long as it fits. */
  method TakeRamp(budget: int64) returns (out: seq<int>, sum: int64, ghost k: nat)
    requires 0 < budget <= MAX_BUDGET
    ensures k <= |UPSTREAM_RAMP| && out == UPSTREAM_RAMP[..k]
    ensures sum == Sum(out) <= budget
    ensures k < |UPSTREAM_RAMP| ==> sum + UPSTREAM_RAMP[k] > budget
  {
    out, sum := [], 0;
    var i := 0;
    while i < |UPSTREAM_RAMP|
      invariant 0 <= i <= |UPSTREAM_RAMP|
      invariant out == UPSTREAM_RAMP[..i]
      invariant sum == Sum(out) <= budget
    {
      RampSum(i);
      var iv := UPSTREAM_RAMP[i];
      if AddInt64(sum, iv) > budget {
        return out, sum, i;
      }
      out := out + [iv];
      sum := AddInt64(sum, iv);
      i := i + 1;
    }
    k := i;
  }

  /** The first entries of the schedule, their sum, and the turns of the padding loop so far. */
  ghost predicate Padding(out: seq<int>, sum: int64, start: int64, budget: int, k: nat, m: nat)
    requires k <= |UPSTREAM_RAMP|
  {
    && out == Whole(k, m) && sum == Sum(out) <= budget && sum == Padded(start, m)
    && (k < |UPSTREAM_RAMP| ==> m == 0 && sum + SECOND > budget)
    && 0 <= sum <= MAX_INT64 - SECOND
  }

  lemma PaddingStep(out: seq<int>, sum: int64, start: int64, budget: int64, k: nat, m: nat)
    requires k <= |UPSTREAM_RAMP| && budget <= MAX_BUDGET
    requires Padding(out, sum, start, budget, k, m) && PadsOn(sum, budget)
    ensures sum < PadTurn(sum) <= budget
    ensures Padding(out + [SECOND], PadTurn(sum), start, budget, k, m + 1)
  {
    SumSnoc(out, SECOND);
    NoOverflow(k, m + 1, budget);
  }

  lemma PaddingDone(out: seq<int>, sum: int64, start: int64, budget: int64, k: nat, m: nat)
    requires k <= |UPSTREAM_RAMP| && Padding(out, sum, start, budget, k, m) && !PadsOn(sum, budget)
    requires k < |UPSTREAM_RAMP| ==> start + UPSTREAM_RAMP[k] > budget
    ensures IsSchedule(if budget > sum then out + [budget - sum] else out, k, m, budget)
  {
  }

  /** The second loop: whole seconds for as long as they fit, and the remainder. */
  method PadWithSeconds(ramp: seq<int>, start: int64, budget: int64, ghost k: nat) returns (out: seq<int>)
    requires k <= |UPSTREAM_RAMP| && ramp == UPSTREAM_RAMP[..k] && start == Sum(ramp) <= budget <= MAX_BUDGET
    requires k < |UPSTREAM_RAMP| ==> start + UPSTREAM_RAMP[k] > budget
    ensures exists m: nat :: IsSchedule(out, k, m, budget)
  {
    out := ramp;
    var sum := start;
    ghost var m := 0;
    RampSum(k);
    NoOverflow(k, m, budget);
    while PadsOn(sum, budget)
      invariant Padding(out, sum, start, budget, k, m)
      decreases budget - sum
    {
      PaddingStep(out, sum, start, budget, k, m);
      out := out + [SECOND];
      sum := PadTurn(sum);
      m := m + 1;
    }
    PaddingDone(out, sum, start, budget, k, m);
    var rem := budget - sum;
    if rem > 0 {
      out := out + [rem];
    }
  }

  /** The waits of one send. A budget of zero or less means the ramp itself; otherwise every wait
      is positive and at most a second, they follow the ramp for as long as it fits, and they add
      up to exactly the budget. */
  method BuildRetransmitSchedule(budget: int64) returns (out: seq<int>)
    requires budget <= MAX_BUDGET
    ensures forall i :: 0 <= i < |out| ==> 0 < out[i] <= SECOND
    ensures budget <= 0 ==> out == UPSTREAM_RAMP
    ensures budget > 0 ==> Sum(out) == budget && RampThenSeconds(out, budget)
  {
    if budget <= 0 {
      return UPSTREAM_RAMP;
    }
    var sum: int64;
    ghost var k: nat;
    out, sum, k := TakeRamp(budget);
    out := PadWithSeconds(out, sum, budget, k);
    ghost var m: nat :| IsSchedule(out, k, m, budget);
    ScheduleWaits(out, k, m, budget);
  }
}
